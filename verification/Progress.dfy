/** The bucket locks cannot deadlock: a thread that holds one never waits for another, so in
    every state of every run each thread can move, or waits for a lock whose holder can. */
module Progress {
  import opened KvTypes
  import opened Chains
  import opened ChainMemory
  import opened Requests
  import opened Machine
  import opened Refinement

  /** A lock that is taken is held by the thread it names. */
  ghost predicate Owned(s: State) {
    forall b | 0 <= b < |s.locks| && s.locks[b].Some? ::
      s.locks[b].value < |s.threads| && Held(s.threads[s.locks[b].value].pc) == Some(b)
  }

  /** What a step of thread t does to the locks: nothing, or it takes one, or it gives up its own. */
  ghost predicate LockChange(s: State, s': State, t: Tid) {
    && t < |s.threads| == |s'.threads|
    && (forall u | 0 <= u < |s.threads| && u != t :: s'.threads[u] == s.threads[u])
    && var held, held' := Held(s.threads[t].pc), Held(s'.threads[t].pc);
       || (s'.locks == s.locks && held' == held)
       || (held.None? && held'.Some? && held'.value < |s.locks| && s'.locks == s.locks[held'.value := Some(t)])
       || (held.Some? && held'.None? && held.value < |s.locks| && s'.locks == s.locks[held.value := None])
  }

  lemma StepLocks(g: Geometry, s: State, s': State, t: Tid)
    requires Step(g, s, s', t)
    ensures LockChange(s, s', t)
  {
  }

  lemma {:induction false} OwnedNext(g: Geometry, s: State, s': State)
    requires Next(g, s, s') && Owned(s)
    ensures Owned(s')
  {
    var t: Tid :| Step(g, s, s', t);
    StepLocks(g, s, s', t);
  }

  lemma {:induction false} OwnedRun(g: Geometry, run: seq<State>, i: nat)
    requires Run(g, run) && i < |run|
    ensures Owned(run[i])
  {
    if i > 0 {
      OwnedRun(g, run, i - 1);
      assert NextAt(g, run, i - 1);
      OwnedNext(g, run[i - 1], run[i]);
    }
  }

  /** The lock a thread is spinning on. */
  function Wants(g: Geometry, th: Thread): Option<nat> {
    if th.pc.Wait? && OpOf(th.prog).Some? && Keyed(OpOf(th.prog).value) then Some(g.hash(OpOf(th.prog).value.key))
    else if th.pc.ScanWait? then Some(th.pc.b)
    else None
  }

  ghost predicate CanMove(g: Geometry, s: State, t: Tid) {
    exists s': State :: Step(g, s, s', t)
  }

  /** A handler that got a result always has somewhere to go. */
  function Onward(p: Prog, res: Result): (q: Prog)
    requires OpOf(p).Some?
    ensures Resumes(p, res, q)
  {
    match p
    case InsertLook(k, v) => if res.Found? then Replied(InsertExists(k)) else InsertAdd(k, v)
    case InsertAdd(k, v) => Replied(if res.Ok? then InsertDone(k) else NoMemory)
    case UpdateLook(k, v) => if res.Found? then UpdateAdd(k, v) else Replied(UpdateMissing(k))
    case UpdateAdd(k, v) => Replied(if res.Ok? then UpdateDone(k) else NoMemory)
    case GetLook(k) => Replied(if res.Found? then GotValue(k, res.value) else GetMissing(k))
    case DeleteOne(k) => Replied(if res.Ok? then DeleteDone(k) else DeleteMissing(k))
    case SaveCount => if res == Counted(0) then Replied(SaveNothing) else Replied(SaveFailed)
    case SaveRecount(cap) =>
      if res.Counted? && res.count != cap then Replied(SaveMismatch(cap)) else Replied(SaveFailed)
    case SaveCopy(cap) => Replied(if res.Copied? then SaveCopied(cap, res.out) else SaveFailed)
  }

  lemma LocalMoves(g: Geometry, s: State, t: Tid, th': Thread)
    requires t < |s.threads| && (ClientStep(s.threads[t], th') || CallStep(s.threads[t], th'))
    ensures CanMove(g, s, t)
  {
    var s' := s.(threads := s.threads[t := th']);
    assert LocalStep(s, s', t);
    assert Step(g, s, s', t);
  }

  lemma OutsideMoves(g: Geometry, s: State, cs: seq<seq<Ptr>>, t: Tid)
    requires InvWith(g, s, cs) && t < |s.threads| && (s.threads[t].pc.Idle? || s.threads[t].pc.Return?)
    ensures CanMove(g, s, t)
  {
    assert ThreadOk(g, s, cs, t);
    var th := s.threads[t];
    if th.pc.Return? {
      LocalMoves(g, s, t, Thread(Onward(th.prog, th.pc.res), Idle));
    } else if th.prog.Ready? {
      LocalMoves(g, s, t, Thread(Begin(GetKey(0)), Idle));
    } else if th.prog.Replied? {
      LocalMoves(g, s, t, Thread(Ready, Idle));
    } else {
      var op := OpOf(th.prog).value;
      LocalMoves(g, s, t, Thread(th.prog, if Keyed(op) then Wait else if op == Snapshot(0) then Return(Err(-EINVAL))
                                          else ScanWait(0, StartAcc(op))));
    }
  }

  /** The cursor of a walk is at a node or past the end. */
  lemma CursorKnown(g: Geometry, h: Heap, cs: seq<seq<Ptr>>, b: nat, cur: Ptr, i: nat)
    requires Shaped(g, h, cs) && b < |cs| && i <= |cs[b]| && cur == At(cs[b], i)
    ensures cur in h.node || cur == NULL
  {
    if i < |cs[b]| { InBucket(g, h, cs, b, cs[b][i]); }
  }

  lemma WalkMoves(g: Geometry, s: State, cs: seq<seq<Ptr>>, t: Tid)
    requires InvWith(g, s, cs) && t < |s.threads| && s.threads[t].pc.Walk?
    ensures CanMove(g, s, t)
  {
    assert ThreadOk(g, s, cs, t);
    var th, pc := s.threads[t], s.threads[t].pc;
    var op := OpOf(th.prog).value;
    var i: nat :| Passed(s.heap.node, cs[pc.b], pc.cur, op.key, i);
    CursorKnown(g, s.heap, cs, pc.b, pc.cur, i);
    if pc.cur !in s.heap.node {
      var s' := s.(threads := s.threads[t := Thread(th.prog, Unlock(pc.b, Err(if op.Add? then -ENOMEM else -ENOENT)))]);
      assert MissStep(s, s', t);
      assert Step(g, s, s', t);
    } else if s.heap.node[pc.cur].key != op.key {
      var s' := s.(threads := s.threads[t := Thread(th.prog, Walk(pc.b, s.heap.node[pc.cur].next))]);
      assert AdvanceStep(s, s', t);
      assert Step(g, s, s', t);
    } else {
      var s' := HitNext(s, t);
      assert Step(g, s, s', t);
    }
  }

  lemma HitNext(s: State, t: Tid) returns (s': State)
    requires t < |s.threads| && s.threads[t].pc.Walk? && s.threads[t].pc.cur in s.heap.node
    requires s.threads[t].pc.b < |s.heap.heads|
    requires var op := OpOf(s.threads[t].prog);
             op.Some? && Keyed(op.value) && s.heap.node[s.threads[t].pc.cur].key == op.value.key
    ensures HitStep(s, s', t)
  {
    var th, pc := s.threads[t], s.threads[t].pc;
    var op, v := OpOf(th.prog).value, s.heap.node[pc.cur].value;
    var heap := match op
      case Add(_, w) => Store(s.heap, pc.cur, w)
      case Remove(_) => Unlink(s.heap, pc.b, pc.cur)
      case _ => s.heap;
    var res := if op.Lookup? then if |v| + 1 > op.room then Err(-ENOSPC) else Found(v) else Ok;
    s' := State(heap, s.locks, s.threads[t := Thread(th.prog, Unlock(pc.b, res))]);
  }

  lemma ScanMoves(g: Geometry, s: State, cs: seq<seq<Ptr>>, t: Tid)
    requires InvWith(g, s, cs) && t < |s.threads| && s.threads[t].pc.ScanWalk?
    ensures CanMove(g, s, t)
  {
    assert ThreadOk(g, s, cs, t);
    var th, pc := s.threads[t], s.threads[t].pc;
    var i: nat :| ScannedTo(s.heap.node, cs[pc.b], pc.cur, pc.acc, pc.base, i);
    CursorKnown(g, s.heap, cs, pc.b, pc.cur, i);
    if pc.cur !in s.heap.node {
      var s' := s.(threads := s.threads[t := Thread(th.prog, ScanUnlock(pc.b, pc.acc))]);
      assert ScanEndStep(s, s', t);
      assert Step(g, s, s', t);
    } else {
      var n := s.heap.node[pc.cur];
      var s' := s.(threads := s.threads[t := Thread(th.prog,
        if Full(pc.acc) then Unlock(pc.b, ResultOf(pc.acc))
        else ScanWalk(pc.b, n.next, Absorb(pc.acc, [Entry(n.key, n.value)]), pc.base))]);
      assert ScanNodeStep(s, s', t);
      assert Step(g, s, s', t);
    }
  }

  lemma ReleaseMoves(g: Geometry, s: State, cs: seq<seq<Ptr>>, t: Tid)
    requires InvWith(g, s, cs) && t < |s.threads| && (s.threads[t].pc.Unlock? || s.threads[t].pc.ScanUnlock?)
    ensures CanMove(g, s, t)
  {
    assert ThreadOk(g, s, cs, t);
    var th, pc := s.threads[t], s.threads[t].pc;
    if pc.Unlock? {
      var s' := State(s.heap, s.locks[pc.b := None], s.threads[t := Thread(th.prog, Return(pc.res))]);
      assert ReleaseStep(s, s', t);
      assert Step(g, s, s', t);
    } else {
      var s' := State(s.heap, s.locks[pc.b := None], s.threads[t := Thread(th.prog,
        if pc.b + 1 < g.n then ScanWait(pc.b + 1, pc.acc) else Return(ResultOf(pc.acc)))]);
      assert ScanReleaseStep(g, s, s', t);
      assert Step(g, s, s', t);
    }
  }

  /** Inside a critical section nothing is waited for. */
  lemma HolderMoves(g: Geometry, s: State, t: Tid)
    requires Inv(g, s) && t < |s.threads| && Held(s.threads[t].pc).Some?
    ensures CanMove(g, s, t)
  {
    var cs: seq<seq<Ptr>> :| InvWith(g, s, cs);
    match s.threads[t].pc {
      case Walk(_, _) => WalkMoves(g, s, cs, t);
      case ScanWalk(_, _, _, _) => ScanMoves(g, s, cs, t);
      case _ => ReleaseMoves(g, s, cs, t);
    }
  }

  /** A thread whose lock is free can take it. */
  lemma FreeLockMoves(g: Geometry, s: State, cs: seq<seq<Ptr>>, t: Tid)
    requires InvWith(g, s, cs) && t < |s.threads| && (s.threads[t].pc.Wait? || s.threads[t].pc.ScanWait?)
    ensures Wants(g, s.threads[t]).Some? && Wants(g, s.threads[t]).value < |s.locks|
    ensures s.locks[Wants(g, s.threads[t]).value].None? ==> CanMove(g, s, t)
  {
    assert ThreadOk(g, s, cs, t);
    var th, pc := s.threads[t], s.threads[t].pc;
    var b := Wants(g, th).value;
    if s.locks[b].None? {
      if pc.Wait? {
        var s' := State(s.heap, s.locks[b := Some(t)], s.threads[t := Thread(th.prog, Walk(b, s.heap.heads[b]))]);
        assert AcquireStep(g, s, s', t);
        assert Step(g, s, s', t);
      } else {
        var s' := State(s.heap, s.locks[b := Some(t)],
                        s.threads[t := Thread(th.prog, ScanWalk(b, s.heap.heads[b], pc.acc, pc.acc))]);
        assert ScanAcquireStep(s, s', t);
        assert Step(g, s, s', t);
      }
    }
  }

  /** Deadlock freedom: in every state of every run a thread can move, or it waits for a bucket
      lock whose holder, another thread, can. */
  lemma NoDeadlock(g: Geometry, run: seq<State>, i: nat, t: Tid)
    requires Run(g, run) && i < |run| && t < |run[i].threads|
    ensures || CanMove(g, run[i], t)
            || (exists u: Tid :: u != t && u < |run[i].threads| && CanMove(g, run[i], u)
                                 && Wants(g, run[i].threads[t]).Some?
                                 && Held(run[i].threads[u].pc) == Wants(g, run[i].threads[t]))
  {
    OwnedRun(g, run, i);
    RunRefines(g, run);
    var s := run[i];
    var cs: seq<seq<Ptr>> :| InvWith(g, s, cs);
    var pc := s.threads[t].pc;
    if Held(pc).Some? {
      HolderMoves(g, s, t);
    } else if pc.Wait? || pc.ScanWait? {
      FreeLockMoves(g, s, cs, t);
      var lock := s.locks[Wants(g, s.threads[t]).value];
      if lock.Some? { HolderMoves(g, s, lock.value); }
    } else {
      OutsideMoves(g, s, cs, t);
    }
  }
}
