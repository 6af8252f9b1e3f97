/** Every interleaving of the node-by-node machine is an interleaving of the atomic store:
    an invariant over chains, locks and cursors, and a simulation with one effective step
    per operation (per bucket for the scans). */
module Refinement {
  import opened KvTypes
  import opened Chains
  import opened ChainMemory
  import opened Requests
  import opened Machine
  import A = AtomicStore

  // ---- the invariant ----

  /** The cursor is at position i and no earlier node has key k. */
  ghost predicate Passed(node: Nodes, c: seq<Ptr>, cur: Ptr, k: u64, i: nat) {
    && i <= |c| && cur == At(c, i)
    && forall j | 0 <= j < i && c[j] in node :: node[c[j]].key != k
  }

  /** The cursor is at position i and acc holds the i entries before it. */
  ghost predicate ScannedTo(node: Nodes, c: seq<Ptr>, cur: Ptr, acc: Acc, base: Acc, i: nat) {
    && i <= |c| && cur == At(c, i)
    && (forall p | p in c :: p in node)
    && acc == Absorb(base, Contents(node, c)[..i])
  }

  predicate Fits(acc: Acc) {
    acc.Copies? ==> |acc.out| <= acc.max
  }

  ghost predicate PcOk(g: Geometry, node: Nodes, cs: seq<seq<Ptr>>, th: Thread) {
    && (th.pc.Idle? || OpOf(th.prog).Some?)
    && match th.pc
       case Idle => true
       case Return(_) => true
       case Wait => Keyed(OpOf(th.prog).value)
       case Walk(b, cur) =>
         && Keyed(OpOf(th.prog).value) && b == g.hash(OpOf(th.prog).value.key) && b < |cs|
         && exists i: nat :: Passed(node, cs[b], cur, OpOf(th.prog).value.key, i)
       case Unlock(b, _) => b < |cs|
       case ScanWait(b, acc) => b < |cs| && Fits(acc) && !Keyed(OpOf(th.prog).value)
       case ScanWalk(b, cur, acc, base) =>
         && b < |cs| && Fits(acc) && !Keyed(OpOf(th.prog).value)
         && exists i: nat :: ScannedTo(node, cs[b], cur, acc, base, i)
       case ScanUnlock(b, acc) => b < |cs| && Fits(acc) && !Keyed(OpOf(th.prog).value)
  }

  /** The bucket whose lock a thread holds. */
  function Held(pc: Pc): Option<nat> {
    match pc
    case Walk(b, _) => Some(b)
    case Unlock(b, _) => Some(b)
    case ScanWalk(b, _, _, _) => Some(b)
    case ScanUnlock(b, _) => Some(b)
    case _ => None
  }

  ghost predicate ThreadOk(g: Geometry, s: State, cs: seq<seq<Ptr>>, t: Tid) {
    && t < |s.threads|
    && PcOk(g, s.heap.node, cs, s.threads[t])
    && (Held(s.threads[t].pc).Some? ==>
          && Held(s.threads[t].pc).value < |s.locks|
          && s.locks[Held(s.threads[t].pc).value] == Some(t))
  }

  ghost predicate InvWith(g: Geometry, s: State, cs: seq<seq<Ptr>>) {
    && Shaped(g, s.heap, cs)
    && |s.locks| == g.n
    && forall t | 0 <= t < |s.threads| :: ThreadOk(g, s, cs, t)
  }

  ghost predicate Inv(g: Geometry, s: State) {
    exists cs: seq<seq<Ptr>> :: InvWith(g, s, cs)
  }

  // ---- what a step of one thread must show about itself ----

  /** A thread's view of a bucket it does not hold cannot matter; of one it holds, it is kept. */
  lemma PcFrame(g: Geometry, node: Nodes, node': Nodes, cs: seq<seq<Ptr>>, cs': seq<seq<Ptr>>, th: Thread)
    requires PcOk(g, node, cs, th) && |cs'| == |cs|
    requires Held(th.pc).Some? && Held(th.pc).value < |cs| ==>
               && cs'[Held(th.pc).value] == cs[Held(th.pc).value]
               && forall p | p in cs[Held(th.pc).value] :: p in node && p in node' && node'[p] == node[p]
    ensures PcOk(g, node', cs', th)
  {
    match th.pc {
      case Walk(b, cur) =>
        var i: nat :| Passed(node, cs[b], cur, OpOf(th.prog).value.key, i);
        assert forall j | 0 <= j < i :: cs[b][j] in cs[b];
        assert Passed(node', cs'[b], cur, OpOf(th.prog).value.key, i);
      case ScanWalk(b, cur, acc, base) =>
        var i: nat :| ScannedTo(node, cs[b], cur, acc, base, i);
        assert Contents(node, cs[b]) == Contents(node', cs'[b]);
        assert ScannedTo(node', cs'[b], cur, acc, base, i);
      case _ =>
    }
  }

  /** Thread t moved; it changed only bucket b, whose lock it held, and took no lock from another. */
  ghost predicate MovedBy(s: State, s': State, cs: seq<seq<Ptr>>, cs': seq<seq<Ptr>>, t: Tid, b: nat) {
    && t < |s.threads| == |s'.threads|
    && (forall u | 0 <= u < |s.threads| && u != t :: s'.threads[u] == s.threads[u])
    && |s'.locks| == |s.locks|
    && (forall a, u | 0 <= a < |s.locks| && u != t && s.locks[a] == Some(u) :: s'.locks[a] == Some(u))
    && (|| (s'.heap.node == s.heap.node && cs' == cs)
        || (&& b < |cs| == |s.locks| && s.locks[b] == Some(t)
            && |cs'| == |cs| && (forall a | 0 <= a < |cs| && a != b :: cs'[a] == cs[a])
            && OthersKept(cs, b, s.heap.node, s'.heap.node)))
  }

  lemma InvAfter(g: Geometry, s: State, s': State, cs: seq<seq<Ptr>>, cs': seq<seq<Ptr>>, t: Tid, b: nat)
    requires InvWith(g, s, cs) && MovedBy(s, s', cs, cs', t, b)
    requires Shaped(g, s'.heap, cs') && ThreadOk(g, s', cs', t)
    ensures InvWith(g, s', cs')
  {
    forall u | 0 <= u < |s'.threads| ensures ThreadOk(g, s', cs', u) {
      if u != t {
        assert ThreadOk(g, s, cs, u);
        var held := Held(s.threads[u].pc);
        if held.Some? {
          assert held.value < |cs|;
          forall p | p in cs[held.value] ensures p in s.heap.node { InBucket(g, s.heap, cs, held.value, p); }
        }
        PcFrame(g, s.heap.node, s'.heap.node, cs, cs', s.threads[u]);
      }
    }
  }

  /** The step of s' that the specification sees, if any. */
  ghost predicate Matches(g: Geometry, s: State, s': State, t: Tid) {
    A.View(s') == A.View(s) || A.Step(g, A.View(s), A.View(s'), t)
  }

  lemma ViewMoved(s: State, s': State, t: Tid)
    requires t < |s.threads| == |s'.threads|
    requires forall u | 0 <= u < |s.threads| && u != t :: s'.threads[u] == s.threads[u]
    ensures A.View(s').threads == A.View(s).threads[t := A.ViewThread(s'.threads[t])]
    ensures s'.heap.node == s.heap.node ==> A.View(s').m == A.View(s).m
    ensures s'.heap.node == s.heap.node && A.ViewThread(s'.threads[t]) == A.ViewThread(s.threads[t])
            ==> A.View(s') == A.View(s)
  {
  }

  // ---- one lemma per kind of step ----

  lemma LocalKeeps(g: Geometry, s: State, s': State, cs: seq<seq<Ptr>>, t: Tid)
    requires InvWith(g, s, cs) && t < |s.threads| && LocalStep(s, s', t)
    requires ClientStep(s.threads[t], s'.threads[t]) || CallStep(s.threads[t], s'.threads[t])
    ensures InvWith(g, s', cs) && Matches(g, s, s', t)
  {
    assert ThreadOk(g, s, cs, t);
    assert g.hash(0) < g.n;
    InvAfter(g, s, s', cs, cs, t, 0);
    ViewMoved(s, s', t);
  }

  lemma AcquireKeeps(g: Geometry, s: State, s': State, cs: seq<seq<Ptr>>, t: Tid)
    requires InvWith(g, s, cs) && t < |s.threads| && (AcquireStep(g, s, s', t) || ScanAcquireStep(s, s', t))
    ensures InvWith(g, s', cs) && Matches(g, s, s', t)
  {
    assert ThreadOk(g, s, cs, t);
    var th, th' := s.threads[t], s'.threads[t];
    var b := Held(th'.pc).value;
    assert Linked(g, s.heap, cs[b], b);
    if th.pc.Wait? {
      assert Passed(s.heap.node, cs[b], th'.pc.cur, OpOf(th.prog).value.key, 0);
    } else {
      forall p | p in cs[b] ensures p in s.heap.node { InBucket(g, s.heap, cs, b, p); }
      assert th.pc.acc == Absorb(th.pc.acc, []) by {
        if th.pc.acc.Copies? { assert th.pc.acc.out + ClipAll([]) == th.pc.acc.out; }
      }
      assert Contents(s.heap.node, cs[b])[..0] == [];
      assert ScannedTo(s.heap.node, cs[b], th'.pc.cur, th'.pc.acc, th'.pc.base, 0);
    }
    InvAfter(g, s, s', cs, cs, t, b);
    ViewMoved(s, s', t);
  }

  lemma ReleaseKeeps(g: Geometry, s: State, s': State, cs: seq<seq<Ptr>>, t: Tid)
    requires InvWith(g, s, cs) && t < |s.threads| && (ReleaseStep(s, s', t) || ScanReleaseStep(g, s, s', t))
    ensures InvWith(g, s', cs) && Matches(g, s, s', t)
  {
    assert ThreadOk(g, s, cs, t);
    InvAfter(g, s, s', cs, cs, t, 0);
    ViewMoved(s, s', t);
    if s.threads[t].pc.ScanUnlock? && s.threads[t].pc.b + 1 == g.n {
      assert A.FinishStep(g, A.View(s), A.View(s'), t);
    }
  }

  lemma AdvanceKeeps(g: Geometry, s: State, s': State, cs: seq<seq<Ptr>>, t: Tid)
    requires InvWith(g, s, cs) && t < |s.threads| && AdvanceStep(s, s', t)
    ensures InvWith(g, s', cs) && Matches(g, s, s', t)
  {
    assert ThreadOk(g, s, cs, t);
    var pc, k := s.threads[t].pc, OpOf(s.threads[t].prog).value.key;
    var c := cs[pc.b];
    var i: nat :| Passed(s.heap.node, c, pc.cur, k, i);
    CursorInside(g, s.heap, cs, pc.b, pc.cur, i);
    assert Passed(s.heap.node, c, s'.threads[t].pc.cur, k, i + 1);
    InvAfter(g, s, s', cs, cs, t, pc.b);
    ViewMoved(s, s', t);
  }

  /** A cursor at a node is at a position inside the chain, and its next field is the next position. */
  lemma CursorInside(g: Geometry, h: Heap, cs: seq<seq<Ptr>>, b: nat, cur: Ptr, i: nat)
    requires Shaped(g, h, cs) && b < |cs| && i <= |cs[b]| && cur == At(cs[b], i) && cur in h.node
    ensures i < |cs[b]| && h.node[cur].next == At(cs[b], i + 1) && g.hash(h.node[cur].key) == b
  {
    assert Linked(g, h, cs[b], b);
    if i == |cs[b]| {
      InBucket(g, h, cs, g.hash(h.node[NULL].key), NULL);
    } else {
      assert NodeAt(g, h, cs[b], b, i);
    }
  }

  lemma CursorAtEnd(g: Geometry, h: Heap, cs: seq<seq<Ptr>>, b: nat, i: nat)
    requires Shaped(g, h, cs) && b < |cs| && i <= |cs[b]| && At(cs[b], i) == NULL
    ensures i == |cs[b]|
  {
    if i < |cs[b]| { InBucket(g, h, cs, b, cs[b][i]); }
  }

  /** The step at which a keyed operation takes effect. */
  lemma TookEffect(g: Geometry, s: State, s': State, t: Tid)
    requires t < |s.threads| == |s'.threads| && s'.threads == s.threads[t := s'.threads[t]]
    requires s.threads[t].pc.Walk? && OpOf(s.threads[t].prog).Some?
    requires s'.threads[t].prog == s.threads[t].prog && s'.threads[t].pc.Unlock?
    requires A.Effect(OpOf(s.threads[t].prog).value, MapOf(s.heap.node), MapOf(s'.heap.node), s'.threads[t].pc.res)
    ensures Matches(g, s, s', t)
  {
    ViewMoved(s, s', t);
    assert A.OpStep(A.View(s), A.View(s'), t);
  }

  lemma {:induction false} HitKeeps(g: Geometry, s: State, s': State, cs: seq<seq<Ptr>>, t: Tid)
      returns (cs': seq<seq<Ptr>>)
    requires InvWith(g, s, cs) && t < |s.threads| && HitStep(s, s', t)
    ensures InvWith(g, s', cs') && Matches(g, s, s', t)
  {
    assert ThreadOk(g, s, cs, t);
    cs' := HitWrites(g, s, s', cs, t);
    InvAfter(g, s, s', cs, cs', t, s.threads[t].pc.b);
    TookEffect(g, s, s', t);
  }

  /** The node under the cursor is at a position of its chain and carries the key. */
  lemma HitAt(g: Geometry, s: State, s': State, cs: seq<seq<Ptr>>, t: Tid) returns (i: nat)
    requires InvWith(g, s, cs) && t < |s.threads| && HitStep(s, s', t)
    ensures var pc := s.threads[t].pc;
            && pc.b < |cs| == |s.locks| && i < |cs[pc.b]| && cs[pc.b][i] == pc.cur && s.locks[pc.b] == Some(t)
    ensures var k, v := OpOf(s.threads[t].prog).value.key, s.heap.node[s.threads[t].pc.cur].value;
            k in MapOf(s.heap.node) && MapOf(s.heap.node)[k] == v
  {
    assert ThreadOk(g, s, cs, t);
    var pc, op := s.threads[t].pc, OpOf(s.threads[t].prog).value;
    i :| 0 <= i && Passed(s.heap.node, cs[pc.b], pc.cur, op.key, i);
    CursorInside(g, s.heap, cs, pc.b, pc.cur, i);
    ShapedUnique(g, s.heap, cs);
    MapOfAt(s.heap.node, pc.cur);
  }

  /** What the write at a hit does to the chains and to the map. */
  lemma {:induction false} HitWrites(g: Geometry, s: State, s': State, cs: seq<seq<Ptr>>, t: Tid)
      returns (cs': seq<seq<Ptr>>)
    requires InvWith(g, s, cs) && t < |s.threads| && HitStep(s, s', t)
    ensures Shaped(g, s'.heap, cs') && MovedBy(s, s', cs, cs', t, s.threads[t].pc.b)
    ensures A.Effect(OpOf(s.threads[t].prog).value, MapOf(s.heap.node), MapOf(s'.heap.node), s'.threads[t].pc.res)
  {
    var i := HitAt(g, s, s', cs, t);
    var pc, op := s.threads[t].pc, OpOf(s.threads[t].prog).value;
    var c := cs[pc.b];
    if op.Add? {
      cs' := cs;
      StoreShape(g, s.heap, cs, pc.b, pc.cur, op.value);
    } else if op.Remove? {
      cs' := cs[pc.b := c[..i] + c[i + 1..]];
      UnlinkShape(g, s.heap, cs, pc.b, i);
    } else {
      cs' := cs;
    }
  }

  lemma MissKeeps(g: Geometry, s: State, s': State, cs: seq<seq<Ptr>>, t: Tid)
    requires InvWith(g, s, cs) && t < |s.threads| && MissStep(s, s', t)
    ensures InvWith(g, s', cs) && Matches(g, s, s', t)
  {
    assert ThreadOk(g, s, cs, t);
    WalkedOff(g, s, cs, t);
    InvAfter(g, s, s', cs, cs, t, s.threads[t].pc.b);
    TookEffect(g, s, s', t);
  }

  lemma LinkKeeps(g: Geometry, s: State, s': State, cs: seq<seq<Ptr>>, t: Tid, p: Ptr) returns (cs': seq<seq<Ptr>>)
    requires InvWith(g, s, cs) && t < |s.threads| && LinkStep(s, s', t, p)
    ensures InvWith(g, s', cs') && Matches(g, s, s', t)
  {
    assert ThreadOk(g, s, cs, t);
    var b, op := s.threads[t].pc.b, OpOf(s.threads[t].prog).value;
    cs' := cs[b := [p] + cs[b]];
    WalkedOff(g, s, cs, t);
    LinkShape(g, s.heap, cs, p, op.key, op.value);
    InvAfter(g, s, s', cs, cs', t, b);
    TookEffect(g, s, s', t);
  }

  /** A thread whose cursor fell off the chain knows that its key is absent. */
  lemma WalkedOff(g: Geometry, s: State, cs: seq<seq<Ptr>>, t: Tid)
    requires InvWith(g, s, cs) && t < |s.threads| && s.threads[t].pc.Walk? && s.threads[t].pc.cur == NULL
    ensures OpOf(s.threads[t].prog).Some? && Keyed(OpOf(s.threads[t].prog).value)
    ensures OpOf(s.threads[t].prog).value.key !in MapOf(s.heap.node)
  {
    assert ThreadOk(g, s, cs, t);
    var b, k := s.threads[t].pc.b, OpOf(s.threads[t].prog).value.key;
    var i: nat :| Passed(s.heap.node, cs[b], NULL, k, i);
    CursorAtEnd(g, s.heap, cs, b, i);
    AbsentAtEnd(g, s.heap, cs, k);
  }

  lemma ScanNodeKeeps(g: Geometry, s: State, s': State, cs: seq<seq<Ptr>>, t: Tid)
    requires InvWith(g, s, cs) && t < |s.threads| && ScanNodeStep(s, s', t)
    ensures InvWith(g, s', cs) && Matches(g, s, s', t)
  {
    assert ThreadOk(g, s, cs, t);
    var pc := s.threads[t].pc;
    var c := cs[pc.b];
    var i: nat :| ScannedTo(s.heap.node, c, pc.cur, pc.acc, pc.base, i);
    CursorInside(g, s.heap, cs, pc.b, pc.cur, i);
    var e := Contents(s.heap.node, c);
    if Full(pc.acc) {
      InvAfter(g, s, s', cs, cs, t, pc.b);
      ViewMoved(s, s', t);
      ContentsEnumerate(g, s.heap, cs, pc.b);
      CutShort(pc.base, e, i);
      assert A.VisitStep(g, A.View(s), A.View(s'), t, e);
    } else {
      AbsorbOne(pc.base, e, i);
      assert ScannedTo(s.heap.node, c, s'.threads[t].pc.cur, s'.threads[t].pc.acc, pc.base, i + 1);
      InvAfter(g, s, s', cs, cs, t, pc.b);
      ViewMoved(s, s', t);
    }
  }

  lemma AbsorbOne(base: Acc, e: Chain, i: nat)
    requires i < |e|
    ensures Absorb(Absorb(base, e[..i]), [e[i]]) == Absorb(base, e[..i + 1])
  {
    if base.Copies? {
      assert ClipAll(e[..i]) + ClipAll([e[i]]) == ClipAll(e[..i + 1]);
      assert (base.out + ClipAll(e[..i])) + ClipAll([e[i]]) == base.out + (ClipAll(e[..i]) + ClipAll([e[i]]));
    }
  }

  /** Filling up before the end of the bucket is taking the first max of the whole visit. */
  lemma CutShort(base: Acc, e: Chain, i: nat)
    requires i < |e| && base.Copies?
    requires |Absorb(base, e[..i]).out| == base.max
    ensures |Absorb(base, e).out| > base.max
    ensures Absorb(base, e).out[..base.max] == Absorb(base, e[..i]).out
  {
    assert ClipAll(e)[..i] == ClipAll(e[..i]);
  }

  lemma ScanEndKeeps(g: Geometry, s: State, s': State, cs: seq<seq<Ptr>>, t: Tid)
    requires InvWith(g, s, cs) && t < |s.threads| && ScanEndStep(s, s', t)
    ensures InvWith(g, s', cs) && Matches(g, s, s', t)
  {
    assert ThreadOk(g, s, cs, t);
    var pc := s.threads[t].pc;
    var i: nat :| ScannedTo(s.heap.node, cs[pc.b], pc.cur, pc.acc, pc.base, i);
    CursorAtEnd(g, s.heap, cs, pc.b, i);
    InvAfter(g, s, s', cs, cs, t, pc.b);
    ViewMoved(s, s', t);
    ContentsEnumerate(g, s.heap, cs, pc.b);
    var e := Contents(s.heap.node, cs[pc.b]);
    assert e[..i] == e;
    assert A.VisitStep(g, A.View(s), A.View(s'), t, e);
  }

  // ---- the theorem ----

  lemma InitInv(g: Geometry, s: State)
    requires Init(g, s)
    ensures Inv(g, s) && A.Init(A.View(s))
  {
    var cs := seq(g.n, b => []);
    assert InvWith(g, s, cs);
  }

  /** Every step keeps the invariant and is one atomic step, or invisible. */
  lemma StepRefines(g: Geometry, s: State, s': State)
    requires Inv(g, s) && Next(g, s, s')
    ensures Inv(g, s') && A.Next(g, A.View(s), A.View(s'))
  {
    var cs: seq<seq<Ptr>> :| InvWith(g, s, cs);
    var t: Tid :| Step(g, s, s', t);
    if LocalStep(s, s', t) && (ClientStep(s.threads[t], s'.threads[t]) || CallStep(s.threads[t], s'.threads[t])) {
      LocalKeeps(g, s, s', cs, t);
    } else if AcquireStep(g, s, s', t) || ScanAcquireStep(s, s', t) {
      AcquireKeeps(g, s, s', cs, t);
    } else if AdvanceStep(s, s', t) {
      AdvanceKeeps(g, s, s', cs, t);
    } else if HitStep(s, s', t) {
      var cs' := HitKeeps(g, s, s', cs, t);
    } else if MissStep(s, s', t) {
      MissKeeps(g, s, s', cs, t);
    } else if exists p: Ptr :: LinkStep(s, s', t, p) {
      var p: Ptr :| LinkStep(s, s', t, p);
      var cs' := LinkKeeps(g, s, s', cs, t, p);
    } else if ReleaseStep(s, s', t) || ScanReleaseStep(g, s, s', t) {
      ReleaseKeeps(g, s, s', cs, t);
    } else if ScanNodeStep(s, s', t) {
      ScanNodeKeeps(g, s, s', cs, t);
    } else {
      ScanEndKeeps(g, s, s', cs, t);
    }
  }

  /** Linearizability: the view of every run, with any number of threads and any
      interleaving, is a run of the atomic store that starts empty. */
  lemma RunRefines(g: Geometry, run: seq<State>)
    requires Run(g, run)
    ensures A.Run(g, A.ViewRun(run)) && A.Init(A.ViewRun(run)[0])
    ensures forall i | 0 <= i < |run| :: Inv(g, run[i])
  {
    RunKeepsInv(g, run, |run| - 1);
    InitInv(g, run[0]);
    forall i: nat | i + 1 < |run| ensures A.NextAt(g, A.ViewRun(run), i) {
      assert NextAt(g, run, i);
      StepRefines(g, run[i], run[i + 1]);
    }
  }

  lemma {:induction false} RunKeepsInv(g: Geometry, run: seq<State>, n: nat)
    requires Run(g, run) && n < |run|
    ensures forall i | 0 <= i <= n :: Inv(g, run[i])
  {
    InitInv(g, run[0]);
    if n > 0 {
      RunKeepsInv(g, run, n - 1);
      assert NextAt(g, run, n - 1);
      StepRefines(g, run[n - 1], run[n]);
    }
  }

  /** Mutual exclusion: two threads never hold the lock of one bucket. */
  lemma OneHolder(g: Geometry, run: seq<State>, i: nat, t: Tid, u: Tid)
    requires Run(g, run) && i < |run| && t < |run[i].threads| && u < |run[i].threads|
    requires Held(run[i].threads[t].pc).Some? && Held(run[i].threads[t].pc) == Held(run[i].threads[u].pc)
    ensures t == u
  {
    RunRefines(g, run);
    var cs: seq<seq<Ptr>> :| InvWith(g, run[i], cs);
    assert ThreadOk(g, run[i], cs, t) && ThreadOk(g, run[i], cs, u);
  }

  /** In no state of any run do two linked entries carry the same key. */
  lemma NoDuplicateKeys(g: Geometry, run: seq<State>, i: nat)
    requires Run(g, run) && i < |run|
    ensures UniqueKeys(run[i].heap.node)
  {
    RunRefines(g, run);
    var cs: seq<seq<Ptr>> :| InvWith(g, run[i], cs);
    ShapedUnique(g, run[i].heap, cs);
  }
}
