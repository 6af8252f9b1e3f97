/** A thread that runs alone finishes: from every reachable state in which the locks it needs
    are free there is a continuation in which it completes its keyed operation, count or snapshot
    with the atomic result, while every other thread stands still. */
module Solo {
  import opened KvTypes
  import opened Chains
  import opened ChainMemory
  import opened Requests
  import opened Machine
  import opened Progress
  import opened Refinement
  import opened Scans
  import A = AtomicStore

  // ---- one step more ----

  function Last(run: seq<State>): State
    requires run != []
  {
    run[|run| - 1]
  }

  lemma Extend(g: Geometry, run: seq<State>, s: State, t: Tid) returns (longer: seq<State>)
    requires Run(g, run) && Step(g, Last(run), s, t)
    ensures longer == run + [s] && Run(g, longer) && Inv(g, s)
  {
    longer := run + [s];
    forall i: nat | i + 1 < |longer| ensures NextAt(g, longer, i) {
      if i + 1 < |run| { assert NextAt(g, run, i); }
    }
    RunRefines(g, longer);
    assert Inv(g, longer[|run|]);
  }

  /** A step of thread t between handlers: a new request, or the next program after a result. */
  lemma Local(g: Geometry, run: seq<State>, t: Tid, th: Thread) returns (longer: seq<State>)
    requires Run(g, run) && t < |Last(run).threads|
    requires ClientStep(Last(run).threads[t], th) || CallStep(Last(run).threads[t], th)
    ensures Run(g, longer) && Grew(run, longer, t)
    ensures Last(longer) == Last(run).(threads := Last(run).threads[t := th])
  {
    var s := Last(run).(threads := Last(run).threads[t := th]);
    assert LocalStep(Last(run), s, t);
    longer := Extend(g, run, s, t);
    GrewOne(run, s, t);
  }

  /** Thread t has gone to th; no lock was taken or given up, and no other thread moved. */
  ghost predicate Moved(s: State, s': State, t: Tid, th: Thread) {
    t < |s.threads| && s'.locks == s.locks && s'.threads == s.threads[t := th]
  }

  /** From run to longer only thread t moved, and in between the map is the old one or the new one. */
  ghost predicate Grew(run: seq<State>, longer: seq<State>, t: Tid) {
    && 0 < |run| < |longer| && run < longer && t < |Last(run).threads| == |Last(longer).threads|
    && Last(longer).threads == Last(run).threads[t := Last(longer).threads[t]]
    && forall y: nat | |run| <= y < |longer| :: OldOrNew(longer, y, Stored(Last(run)), Stored(Last(longer)))
  }

  ghost predicate OldOrNew(run: seq<State>, y: nat, m: map<u64, CText>, m': map<u64, CText>) {
    y < |run| && (Stored(run[y]) == m || Stored(run[y]) == m')
  }

  lemma GrewMore(a: seq<State>, b: seq<State>, c: seq<State>, t: Tid)
    requires Grew(a, b, t) && Grew(b, c, t)
    requires Stored(Last(b)) == Stored(Last(a)) || Stored(Last(b)) == Stored(Last(c))
    ensures Grew(a, c, t)
  {
    forall y: nat | |a| <= y < |c| ensures OldOrNew(c, y, Stored(Last(a)), Stored(Last(c))) {
      if y < |b| {
        assert OldOrNew(b, y, Stored(Last(a)), Stored(Last(b))) && c[y] == b[y];
      } else {
        assert OldOrNew(c, y, Stored(Last(b)), Stored(Last(c)));
      }
    }
  }

  lemma GrewOne(run: seq<State>, s: State, t: Tid)
    requires run != [] && t < |Last(run).threads| == |s.threads|
    requires s.threads == Last(run).threads[t := s.threads[t]]
    ensures Grew(run, run + [s], t)
  {
  }

  // ---- keyed operations ----

  /** Bucket b begins with a node of this key and value. */
  ghost predicate InFront(h: Heap, b: nat, k: u64, v: CText) {
    && b < |h.heads| && h.heads[b] in h.node
    && h.node[h.heads[b]].key == k && h.node[h.heads[b]].value == v
  }

  /** The operation of the thread has its atomic effect and this result; an add succeeds, and
      links a key that was absent at the head of its bucket. */
  ghost predicate Completes(g: Geometry, p: Prog, s: State, s': State, res: Result) {
    && OpOf(p).Some? && A.Effect(OpOf(p).value, Stored(s), Stored(s'), res)
    && (OpOf(p).value.Add? ==>
          && res == Ok
          && var op := OpOf(p).value;
             op.key !in Stored(s) ==> InFront(s'.heap, g.hash(op.key), op.key, op.value))
  }

  /** The step with which a walk ends: at the key's node, or past the end. */
  lemma Finish(g: Geometry, s: State, cs: seq<seq<Ptr>>, t: Tid) returns (s': State)
    requires InvWith(g, s, cs) && t < |s.threads| && s.threads[t].pc.Walk?
    requires OpOf(s.threads[t].prog).Some? && Keyed(OpOf(s.threads[t].prog).value)
    requires s.threads[t].pc.cur in s.heap.node ==>
               s.heap.node[s.threads[t].pc.cur].key == OpOf(s.threads[t].prog).value.key
    ensures Step(g, s, s', t) && s'.threads[t].pc.Unlock? && s'.threads[t].pc.b == s.threads[t].pc.b
    ensures Moved(s, s', t, Thread(s.threads[t].prog, s'.threads[t].pc))
    ensures Completes(g, s.threads[t].prog, s, s', s'.threads[t].pc.res)
  {
    assert ThreadOk(g, s, cs, t);
    var th, b, cur := s.threads[t], s.threads[t].pc.b, s.threads[t].pc.cur;
    var op := OpOf(th.prog).value;
    if cur in s.heap.node {
      s' := Hit(g, s, cs, t);
    } else {
      var i: nat :| Passed(s.heap.node, cs[b], cur, op.key, i);
      assert cur == NULL by { if i < |cs[b]| { InBucket(g, s.heap, cs, b, cs[b][i]); } }
      WalkedOff(g, s, cs, t);
      if op.Add? {
        s' := LinkNew(g, s, cs, t);
      } else {
        s' := Miss(g, s, t);
      }
    }
  }

  lemma Hit(g: Geometry, s: State, cs: seq<seq<Ptr>>, t: Tid) returns (s': State)
    requires InvWith(g, s, cs) && t < |s.threads| && s.threads[t].pc.Walk? && s.threads[t].pc.cur in s.heap.node
    requires OpOf(s.threads[t].prog).Some? && Keyed(OpOf(s.threads[t].prog).value)
    requires s.heap.node[s.threads[t].pc.cur].key == OpOf(s.threads[t].prog).value.key
    ensures HitStep(s, s', t) && s'.threads[t].pc.Unlock? && s'.threads[t].pc.b == s.threads[t].pc.b
    ensures Moved(s, s', t, Thread(s.threads[t].prog, s'.threads[t].pc))
    ensures Completes(g, s.threads[t].prog, s, s', s'.threads[t].pc.res)
  {
    assert ThreadOk(g, s, cs, t);
    s' := HitNext(s, t);
    var i := HitAt(g, s, s', cs, t);
    var cs' := HitWrites(g, s, s', cs, t);
  }

  lemma LinkNew(g: Geometry, s: State, cs: seq<seq<Ptr>>, t: Tid) returns (s': State)
    requires InvWith(g, s, cs) && t < |s.threads| && s.threads[t].pc.Walk? && s.threads[t].pc.cur == NULL
    requires OpOf(s.threads[t].prog).Some? && OpOf(s.threads[t].prog).value.Add?
    ensures Step(g, s, s', t) && Moved(s, s', t, Thread(s.threads[t].prog, Unlock(s.threads[t].pc.b, Ok)))
    ensures Completes(g, s.threads[t].prog, s, s', Ok)
  {
    assert ThreadOk(g, s, cs, t);
    WalkedOff(g, s, cs, t);
    var th, b, op := s.threads[t], s.threads[t].pc.b, OpOf(s.threads[t].prog).value;
    var p := Above(s.heap.node.Keys);
    s' := State(Link(s.heap, b, p, op.key, op.value), s.locks, s.threads[t := Thread(th.prog, Unlock(b, Ok))]);
    assert LinkStep(s, s', t, p);
    LinkShape(g, s.heap, cs, p, op.key, op.value);
  }

  lemma Miss(g: Geometry, s: State, t: Tid) returns (s': State)
    requires t < |s.threads| && s.threads[t].pc.Walk? && s.threads[t].pc.cur == NULL
    requires OpOf(s.threads[t].prog).Some? && Keyed(OpOf(s.threads[t].prog).value)
    requires !OpOf(s.threads[t].prog).value.Add? && OpOf(s.threads[t].prog).value.key !in MapOf(s.heap.node)
    ensures Step(g, s, s', t)
    ensures Moved(s, s', t, Thread(s.threads[t].prog, Unlock(s.threads[t].pc.b, Err(-ENOENT))))
    ensures A.Effect(OpOf(s.threads[t].prog).value, MapOf(s.heap.node), MapOf(s'.heap.node), Err(-ENOENT))
  {
    s' := s.(threads := s.threads[t := Thread(s.threads[t].prog, Unlock(s.threads[t].pc.b, Err(-ENOENT)))]);
    assert MissStep(s, s', t);
  }

  predicate Walking(th: Thread) {
    th.pc.Walk? && OpOf(th.prog).Some? && Keyed(OpOf(th.prog).value)
  }

  /** The walk of a keyed operation, from the node under the cursor to the write or the miss. */
  lemma {:induction false} WalkOn(g: Geometry, run: seq<State>, t: Tid, cs: seq<seq<Ptr>>, i: nat)
      returns (longer: seq<State>, res: Result)
    requires Run(g, run) && InvWith(g, Last(run), cs) && t < |Last(run).threads|
    requires var th := Last(run).threads[t];
             && Walking(th) && th.pc.b < |cs|
             && Passed(Last(run).heap.node, cs[th.pc.b], th.pc.cur, OpOf(th.prog).value.key, i)
    ensures var th := Last(run).threads[t];
            && Run(g, longer) && Grew(run, longer, t)
            && Moved(Last(run), Last(longer), t, Thread(th.prog, Unlock(th.pc.b, res)))
            && Completes(g, th.prog, Last(run), Last(longer), res)
    decreases |cs[Last(run).threads[t].pc.b]| - i
  {
    var s, th := Last(run), Last(run).threads[t];
    var cur, op := th.pc.cur, OpOf(th.prog).value;
    if cur in s.heap.node && s.heap.node[cur].key != op.key {
      CursorInside(g, s.heap, cs, th.pc.b, cur, i);
      var s' := s.(threads := s.threads[t := Thread(th.prog, Walk(th.pc.b, s.heap.node[cur].next))]);
      assert AdvanceStep(s, s', t);
      AdvanceKeeps(g, s, s', cs, t);
      longer := Extend(g, run, s', t);
      GrewOne(run, s', t);
      var once := longer;
      longer, res := WalkOn(g, once, t, cs, i + 1);
      GrewMore(run, once, longer, t);
    } else {
      var s' := Finish(g, s, cs, t);
      res := s'.threads[t].pc.res;
      longer := Extend(g, run, s', t);
      GrewOne(run, s', t);
    }
  }

  /** A keyed operation of thread t, alone, from its call to its result. Only the lock of the
      key's bucket needs to be free. */
  lemma KeyedAlone(g: Geometry, run: seq<State>, t: Tid) returns (longer: seq<State>, res: Result)
    requires Run(g, run) && t < |Last(run).threads| && Last(run).threads[t].pc.Idle?
    requires var op := OpOf(Last(run).threads[t].prog);
             && op.Some? && Keyed(op.value)
             && g.hash(op.value.key) < |Last(run).locks| && Last(run).locks[g.hash(op.value.key)].None?
    ensures var p := Last(run).threads[t].prog;
            && Run(g, longer) && Grew(run, longer, t)
            && Moved(Last(run), Last(longer), t, Thread(p, Return(res)))
            && Completes(g, p, Last(run), Last(longer), res)
  {
    var p := Last(run).threads[t].prog;
    var called := Local(g, run, t, Thread(p, Wait));
    var walked;
    walked, res := LockAndWalk(g, called, t);
    GrewMore(run, called, walked, t);
    var s, b := Last(walked), g.hash(OpOf(p).value.key);
    var s' := State(s.heap, s.locks[b := None], s.threads[t := Thread(p, Return(res))]);
    assert ReleaseStep(s, s', t);
    longer := Extend(g, walked, s', t);
    GrewOne(walked, s', t);
    GrewMore(run, walked, longer, t);
  }

  lemma LockAndWalk(g: Geometry, run: seq<State>, t: Tid) returns (longer: seq<State>, res: Result)
    requires Run(g, run) && t < |Last(run).threads| && Last(run).threads[t].pc.Wait?
    requires var op := OpOf(Last(run).threads[t].prog);
             && op.Some? && Keyed(op.value)
             && g.hash(op.value.key) < |Last(run).locks| && Last(run).locks[g.hash(op.value.key)].None?
    ensures var s, p, b := Last(run), Last(run).threads[t].prog, g.hash(OpOf(Last(run).threads[t].prog).value.key);
            && Run(g, longer) && Grew(run, longer, t)
            && Last(longer).locks == s.locks[b := Some(t)]
            && Last(longer).threads == s.threads[t := Thread(p, Unlock(b, res))]
            && Completes(g, p, s, Last(longer), res)
  {
    RunRefines(g, run);
    var s, th := Last(run), Last(run).threads[t];
    var b := g.hash(OpOf(th.prog).value.key);
    var cs: seq<seq<Ptr>> :| InvWith(g, s, cs);
    var s' := State(s.heap, s.locks[b := Some(t)], s.threads[t := Thread(th.prog, Walk(b, s.heap.heads[b]))]);
    assert AcquireStep(g, s, s', t);
    AcquireKeeps(g, s, s', cs, t);
    var locked := Extend(g, run, s', t);
    GrewOne(run, s', t);
    assert Linked(g, s.heap, cs[b], b);
    assert Passed(s'.heap.node, cs[b], s.heap.heads[b], OpOf(th.prog).value.key, 0);
    longer, res := WalkOn(g, locked, t, cs, 0);
    GrewMore(run, locked, longer, t);
  }

  // ---- a count or a snapshot ----

  /** The chains of the heap as a table, each from its head. */
  ghost predicate TableOf(g: Geometry, h: Heap, table: Table) {
    exists cs: seq<seq<Ptr>> :: Lists(g, h, cs, table)
  }

  ghost predicate Lists(g: Geometry, h: Heap, cs: seq<seq<Ptr>>, table: Table) {
    Shaped(g, h, cs) && |table| == |cs| && forall b | 0 <= b < |cs| :: ListsAt(h.node, cs[b], table[b])
  }

  ghost predicate ListsAt(node: Nodes, c: seq<Ptr>, e: Chain) {
    (forall p | p in c :: p in node) && e == Contents(node, c)
  }

  /** That table stands for the map the heap stands for. */
  lemma TableIs(g: Geometry, h: Heap, cs: seq<seq<Ptr>>) returns (table: Table)
    requires Shaped(g, h, cs)
    ensures Lists(g, h, cs, table) && WellFormed(g, table) && ToMap(g, table) == MapOf(h.node)
  {
    forall b, p | 0 <= b < |cs| && p in cs[b] ensures p in h.node { InBucket(g, h, cs, b, p); }
    table := seq(|cs|, b requires 0 <= b < |cs| => Contents(h.node, cs[b]));
    TableMap(g, h, cs, table);
  }

  lemma {:induction false} TableMap(g: Geometry, h: Heap, cs: seq<seq<Ptr>>, table: Table)
    requires Lists(g, h, cs, table)
    ensures WellFormed(g, table) && ToMap(g, table) == MapOf(h.node)
  {
    var m := MapOf(h.node);
    forall b | 0 <= b < |table|
      ensures Distinct(table[b]) && Placed(g, table[b], b) && Enumerates(g, m, b, table[b])
    {
      assert ListsAt(h.node, cs[b], table[b]);
      ContentsEnumerate(g, h, cs, b);
      forall i | 0 <= i < |table[b]| ensures g.hash(table[b][i].key) == b {
        assert Entry(table[b][i].key, table[b][i].value) in table[b];
      }
    }
    forall k: u64 ensures Get(g, table, k) == if k in m then Some(m[k]) else None {
      var e := table[g.hash(k)];
      if k in m { MemberOfBucket(e, k, m[k]); }
      assert IndexOf(e, k) < |e| ==> Entry(k, e[IndexOf(e, k)].value) in e;
    }
    SameMap(g, table, m);
  }

  /** The node a bucket begins with is the first of its chain. */
  lemma TableFront(g: Geometry, h: Heap, table: Table, b: nat, k: u64, v: CText)
    requires TableOf(g, h, table) && InFront(h, b, k, v)
    ensures b < |table| && |table[b]| > 0 && table[b][0] == Entry(k, v)
  {
    var cs: seq<seq<Ptr>> :| Lists(g, h, cs, table);
    assert Linked(g, h, cs[b], b) && ListsAt(h.node, cs[b], table[b]);
    CursorInside(g, h, cs, b, h.heads[b], 0);
  }

  /** One step of a scan. */
  lemma ScanMove(g: Geometry, run: seq<State>, s': State, t: Tid, cs: seq<seq<Ptr>>) returns (longer: seq<State>)
    requires Run(g, run) && InvWith(g, Last(run), cs) && t < |Last(run).threads|
    requires var s := Last(run);
             || ScanAcquireStep(s, s', t) || ScanNodeStep(s, s', t) || ScanEndStep(s, s', t)
             || ScanReleaseStep(g, s, s', t) || ReleaseStep(s, s', t)
    ensures longer == run + [s'] && Run(g, longer) && InvWith(g, s', cs)
    ensures Grew(run, longer, t) && s'.heap == Last(run).heap
  {
    var s := Last(run);
    if ScanAcquireStep(s, s', t) {
      AcquireKeeps(g, s, s', cs, t);
    } else if ScanNodeStep(s, s', t) {
      ScanNodeKeeps(g, s, s', cs, t);
    } else if ScanEndStep(s, s', t) {
      ScanEndKeeps(g, s, s', cs, t);
    } else {
      ReleaseKeeps(g, s, s', cs, t);
    }
    longer := Extend(g, run, s', t);
    GrewOne(run, s', t);
  }

  /** What a scan that has taken in acc returns: copies are cut at max. */
  function Outcome(acc: Acc): Result {
    match acc
    case Tally(n) => Counted(n)
    case Copies(out, max) => Copied(First(out, max))
  }

  /** Where it stands as it leaves bucket b: on the way to the next, or out of room. */
  function Leaving(b: nat, acc: Acc): Pc {
    if acc.Copies? && |acc.out| > acc.max then Unlock(b, Outcome(acc)) else ScanUnlock(b, acc)
  }

  /** The chain of one bucket, from the cursor to its end or until the buffer is full. */
  lemma {:induction false} ScanChain(g: Geometry, run: seq<State>, t: Tid, cs: seq<seq<Ptr>>, i: nat)
      returns (longer: seq<State>)
    requires Run(g, run) && InvWith(g, Last(run), cs) && t < |Last(run).threads|
    requires var pc := Last(run).threads[t].pc;
             && pc.ScanWalk? && pc.b < |cs| && Fits(pc.acc)
             && ScannedTo(Last(run).heap.node, cs[pc.b], pc.cur, pc.acc, pc.base, i)
    ensures Run(g, longer) && InvWith(g, Last(longer), cs)
    ensures Grew(run, longer, t) && Last(longer).heap == Last(run).heap
    ensures var th := Last(run).threads[t];
            Moved(Last(run), Last(longer), t, Thread(th.prog,
                Leaving(th.pc.b, Absorb(th.pc.base, Contents(Last(run).heap.node, cs[th.pc.b])))))
    decreases |cs[Last(run).threads[t].pc.b]| - i
  {
    var s, th, pc := Last(run), Last(run).threads[t], Last(run).threads[t].pc;
    var e := Contents(s.heap.node, cs[pc.b]);
    CursorKnown(g, s.heap, cs, pc.b, pc.cur, i);
    if pc.cur !in s.heap.node {
      CursorAtEnd(g, s.heap, cs, pc.b, i);
      assert e[..i] == e;
      longer := ScanMove(g, run, s.(threads := s.threads[t := Thread(th.prog, ScanUnlock(pc.b, pc.acc))]), t, cs);
    } else if Full(pc.acc) {
      CursorInside(g, s.heap, cs, pc.b, pc.cur, i);
      CutShort(pc.base, e, i);
      var s' := s.(threads := s.threads[t := Thread(th.prog, Unlock(pc.b, ResultOf(pc.acc)))]);
      longer := ScanMove(g, run, s', t, cs);
    } else {
      CursorInside(g, s.heap, cs, pc.b, pc.cur, i);
      AbsorbOne(pc.base, e, i);
      var n := s.heap.node[pc.cur];
      var acc := Absorb(pc.acc, [Entry(n.key, n.value)]);
      var s' := s.(threads := s.threads[t := Thread(th.prog, ScanWalk(pc.b, n.next, acc, pc.base))]);
      var once := ScanMove(g, run, s', t, cs);
      longer := ScanChain(g, once, t, cs, i + 1);
      GrewMore(run, once, longer, t);
    }
  }

  ghost predicate AllFree(s: State) {
    forall b | 0 <= b < |s.locks| :: s.locks[b].None?
  }

  /** One bucket: lock, walk, and the lock is ready to be given up. */
  lemma ScanBucket(g: Geometry, run: seq<State>, t: Tid, cs: seq<seq<Ptr>>, table: Table) returns (longer: seq<State>)
    requires Run(g, run) && InvWith(g, Last(run), cs) && t < |Last(run).threads| && AllFree(Last(run))
    requires Lists(g, Last(run).heap, cs, table)
    requires var pc := Last(run).threads[t].pc; pc.ScanWait? && pc.b < |table|
    ensures Run(g, longer) && InvWith(g, Last(longer), cs)
    ensures Grew(run, longer, t) && Last(longer).heap == Last(run).heap
    ensures var s, th := Last(run), Last(run).threads[t];
            && th.pc.b < |s.locks| && Last(longer).locks == s.locks[th.pc.b := Some(t)]
            && Last(longer).threads ==
                 s.threads[t := Thread(th.prog, Leaving(th.pc.b, Absorb(th.pc.acc, table[th.pc.b])))]
  {
    var s, th := Last(run), Last(run).threads[t];
    assert ThreadOk(g, s, cs, t);
    var b, acc := th.pc.b, th.pc.acc;
    assert Linked(g, s.heap, cs[b], b) && ListsAt(s.heap.node, cs[b], table[b]);
    var s' := State(s.heap, s.locks[b := Some(t)],
                    s.threads[t := Thread(th.prog, ScanWalk(b, s.heap.heads[b], acc, acc))]);
    assert ScanAcquireStep(s, s', t);
    var locked := ScanMove(g, run, s', t, cs);
    AbsorbNothing(acc, table[b]);
    longer := ScanChain(g, locked, t, cs, 0);
    GrewMore(run, locked, longer, t);
  }

  lemma AbsorbNothing(acc: Acc, e: Chain)
    ensures Absorb(acc, e[..0]) == acc
  {
    if acc.Copies? { assert acc.out + ClipAll(e[..0]) == acc.out; }
  }

  /** Taking in more does not change what is returned once the buffer is too small. */
  lemma OutcomeCut(start: Acc, table: Table, b: nat)
    requires b <= |table|
    requires var acc := Absorb(start, Flatten(table[..b])); acc.Copies? && |acc.out| > acc.max
    ensures Outcome(Absorb(start, Flatten(table[..b]))) == Outcome(Absorb(start, Flatten(table)))
  {
    FlattenPrefixOf(table, b);
    var part, whole := Flatten(table[..b]), Flatten(table);
    assert ClipAll(whole)[..|part|] == ClipAll(part);
    assert (start.out + ClipAll(whole))[..start.max] == (start.out + ClipAll(part))[..start.max];
  }

  /** Where a scan goes from bucket b: on to the next, or it is done. */
  function NextBucket(g: Geometry, b: nat, acc: Acc): Pc {
    if b + 1 < g.n && !(acc.Copies? && |acc.out| > acc.max) then ScanWait(b + 1, acc) else Return(Outcome(acc))
  }

  /** One bucket, from waiting for its lock to having given it up. */
  lemma ScanVisit(g: Geometry, run: seq<State>, t: Tid, cs: seq<seq<Ptr>>, table: Table) returns (longer: seq<State>)
    requires Run(g, run) && InvWith(g, Last(run), cs) && t < |Last(run).threads| && AllFree(Last(run))
    requires Lists(g, Last(run).heap, cs, table)
    requires var pc := Last(run).threads[t].pc; pc.ScanWait? && pc.b < |table|
    ensures Run(g, longer) && InvWith(g, Last(longer), cs)
    ensures Grew(run, longer, t) && Last(longer).heap == Last(run).heap
    ensures var th := Last(run).threads[t];
            Moved(Last(run), Last(longer), t,
                  Thread(th.prog, NextBucket(g, th.pc.b, Absorb(th.pc.acc, table[th.pc.b]))))
  {
    var th, b := Last(run).threads[t], Last(run).threads[t].pc.b;
    var acc := Absorb(th.pc.acc, table[b]);
    var scanned := ScanBucket(g, run, t, cs, table);
    var s := Last(scanned);
    var s' := State(s.heap, s.locks[b := None], s.threads[t := Thread(th.prog, NextBucket(g, b, acc))]);
    assert ReleaseStep(s, s', t) || ScanReleaseStep(g, s, s', t);
    longer := ScanMove(g, scanned, s', t, cs);
    GrewMore(run, scanned, longer, t);
  }

  /** The buckets from the one the thread waits for to the last, or until the buffer is full. */
  lemma {:induction false} ScanRest(g: Geometry, run: seq<State>, t: Tid, cs: seq<seq<Ptr>>, table: Table, start: Acc)
      returns (longer: seq<State>)
    requires Run(g, run) && InvWith(g, Last(run), cs) && t < |Last(run).threads| && AllFree(Last(run))
    requires Lists(g, Last(run).heap, cs, table)
    requires var pc := Last(run).threads[t].pc;
             pc.ScanWait? && pc.b < |table| && pc.acc == Absorb(start, Flatten(table[..pc.b]))
    ensures Run(g, longer) && Grew(run, longer, t) && Last(longer).heap == Last(run).heap
    ensures Moved(Last(run), Last(longer), t,
                  Thread(Last(run).threads[t].prog, Return(Outcome(Absorb(start, Flatten(table))))))
    decreases |table| - Last(run).threads[t].pc.b
  {
    var b := Last(run).threads[t].pc.b;
    longer := ScanVisit(g, run, t, cs, table);
    FlattenNext(table, b);
    AbsorbAppend(start, Flatten(table[..b]), table[b]);
    if Last(longer).threads[t].pc.ScanWait? {
      var visited := longer;
      longer := ScanRest(g, visited, t, cs, table, start);
      GrewMore(run, visited, longer, t);
    } else if b + 1 < g.n {
      OutcomeCut(start, table, b + 1);
    } else {
      assert table[..b + 1] == table;
    }
  }

  /** A count or snapshot by thread t, alone, returns what is in the table. */
  lemma ScanAlone(g: Geometry, run: seq<State>, t: Tid) returns (longer: seq<State>, table: Table)
    requires Run(g, run) && t < |Last(run).threads| && AllFree(Last(run)) && Last(run).threads[t].pc.Idle?
    requires var op := OpOf(Last(run).threads[t].prog); op.Some? && !Keyed(op.value) && op.value != Snapshot(0)
    ensures Run(g, longer) && Grew(run, longer, t) && Last(longer).heap == Last(run).heap
    ensures TableOf(g, Last(run).heap, table) && WellFormed(g, table) && ToMap(g, table) == Stored(Last(run))
    ensures var p := Last(run).threads[t].prog;
            Moved(Last(run), Last(longer), t,
                  Thread(p, Return(Outcome(Absorb(StartAcc(OpOf(p).value), Flatten(table))))))
  {
    var p := Last(run).threads[t].prog;
    var start := StartAcc(OpOf(p).value);
    assert g.hash(0) < g.n;
    var called := Local(g, run, t, Thread(p, ScanWait(0, start)));
    RunRefines(g, called);
    var cs: seq<seq<Ptr>> :| InvWith(g, Last(called), cs);
    table := TableIs(g, Last(called).heap, cs);
    AbsorbNothing(start, []);
    longer := ScanRest(g, called, t, cs, table, start);
    GrewMore(run, called, longer, t);
  }

  /** A count by thread t, alone, returns the number of stored keys. */
  lemma CountAlone(g: Geometry, run: seq<State>, t: Tid) returns (longer: seq<State>)
    requires Run(g, run) && t < |Last(run).threads| && AllFree(Last(run))
    requires Last(run).threads[t].pc.Idle? && OpOf(Last(run).threads[t].prog) == Some(Count)
    ensures Run(g, longer) && Grew(run, longer, t) && Last(longer).heap == Last(run).heap
    ensures Moved(Last(run), Last(longer), t,
                  Thread(Last(run).threads[t].prog, Return(Counted(|Stored(Last(run))|))))
  {
    var table;
    longer, table := ScanAlone(g, run, t);
    FlattenIsMap(g, table);
  }

  /** A snapshot by thread t, alone, returns the first max entries of the table in scan order. */
  lemma SnapshotAlone(g: Geometry, run: seq<State>, t: Tid, max: nat) returns (longer: seq<State>, table: Table)
    requires Run(g, run) && t < |Last(run).threads| && AllFree(Last(run)) && max > 0
    requires Last(run).threads[t].pc.Idle? && OpOf(Last(run).threads[t].prog) == Some(Snapshot(max))
    ensures Run(g, longer) && Grew(run, longer, t) && Last(longer).heap == Last(run).heap
    ensures TableOf(g, Last(run).heap, table) && WellFormed(g, table) && ToMap(g, table) == Stored(Last(run))
    ensures Moved(Last(run), Last(longer), t,
                  Thread(Last(run).threads[t].prog, Return(Copied(First(ClipAll(Flatten(table)), max)))))
  {
    longer, table := ScanAlone(g, run, t);
    assert [] + ClipAll(Flatten(table)) == ClipAll(Flatten(table));
  }
}
