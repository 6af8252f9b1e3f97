/** The daemon's snapshot walks the table three times: KV_COUNT, the kernel's re-count, and
    the copy. What it may rely on whatever other threads do, and when exactly it fails. */
module ThreePass {
  import opened KvTypes
  import opened Chains
  import opened Requests
  import opened AtomicStore
  import Machine
  import Refinement
  import opened Scans

  // ---- whatever other threads do, the copy fits the buffer ----

  ghost predicate Bounded(th: Thread) {
    match th.prog
    case SaveCopy(cap) =>
      (match th.pc
       case Scan(_, acc) => acc.Copies? && acc.max == cap && |acc.out| <= cap && cap > 0
       case Return(res) => res.Copied? ==> |res.out| <= cap && cap > 0
       case _ => true)
    case Replied(SaveCopied(cap, out)) => |out| <= cap && cap > 0
    case _ => true
  }

  lemma BoundedStep(g: Geometry, s: State, s': State, t: nat)
    requires Step(g, s, s', t) && Bounded(s.threads[t])
    ensures Bounded(s'.threads[t])
  {
  }

  lemma {:induction false} BoundedRun(g: Geometry, run: seq<State>, j: nat, t: nat)
    requires Run(g, run) && Init(run[0]) && j < |run| && t < |run[j].threads|
    ensures Bounded(run[j].threads[t])
  {
    if j > 0 {
      assert NextAt(g, run, j - 1);
      BoundedRun(g, run, j - 1, t);
      OwnStep(g, run[j - 1], run[j], t);
      if run[j].threads[t] != run[j - 1].threads[t] { BoundedStep(g, run[j - 1], run[j], t); }
    }
  }

  /** In every run, for every thread and any mutation between the passes, KV_SNAPSHOT copies
      back at most as many entries as the capacity the caller allocated. */
  lemma CopyFitsBuffer(g: Geometry, run: seq<Machine.State>, j: nat, t: nat, cap: nat, out: seq<Entry>)
    requires Machine.Run(g, run) && j < |run| && t < |run[j].threads|
    requires run[j].threads[t].prog == Replied(SaveCopied(cap, out))
    ensures 1 <= cap && |out| <= cap
  {
    Refinement.RunRefines(g, run);
    BoundedRun(g, ViewRun(run), j, t);
    assert ViewRun(run)[j].threads[t].prog == Replied(SaveCopied(cap, out));
  }

  // ---- the passes of one save ----

  /** Thread t runs one save from state i to its reply in state j. */
  ghost predicate Saving(run: seq<State>, t: nat, i: nat, j: nat, reply: Reply) {
    && i <= j < |run|
    && (forall y | i <= y <= j :: t < |run[y].threads|)
    && run[i].threads[t] == Thread(SaveCount, Idle)
    && (forall y | i <= y < j :: !run[y].threads[t].prog.Replied?)
    && run[j].threads[t].prog == Replied(reply)
  }

  predicate SavingProg(p: Prog) {
    p.SaveCount? || p.SaveRecount? || p.SaveCopy?
  }

  lemma {:induction false} SaveStays(g: Geometry, run: seq<State>, t: nat, i: nat, j: nat, reply: Reply, y: nat)
    requires Run(g, run) && Saving(run, t, i, j, reply) && i <= y < j
    ensures SavingProg(run[y].threads[t].prog)
  {
    if i < y {
      SaveStays(g, run, t, i, j, reply, y - 1);
      assert NextAt(g, run, y - 1);
      OwnStep(g, run[y - 1], run[y], t);
    }
  }

  /** From state a to state b thread t runs p, from the call of its operation to the result. */
  ghost predicate Pass(run: seq<State>, t: nat, a: nat, b: nat, p: Prog, res: Result) {
    && a <= b < |run|
    && (forall y | a <= y <= b :: t < |run[y].threads| && run[y].threads[t].prog == p)
    && run[a].threads[t].pc == Idle && run[b].threads[t].pc == Return(res)
  }

  /** Where a saving thread, now at p, was led to p. */
  lemma {:induction false} LedTo(g: Geometry, run: seq<State>, t: nat, i: nat, j: nat, reply: Reply, y: nat)
      returns (c: nat)
    requires Run(g, run) && Saving(run, t, i, j, reply) && i < y <= j
    requires !run[y].threads[t].prog.SaveCount?
    ensures i <= c < y && run[c].threads[t].pc.Return?
    ensures Resumes(run[c].threads[t].prog, run[c].threads[t].pc.res, run[y].threads[t].prog)
    ensures run[c + 1].threads[t] == Thread(run[y].threads[t].prog, Idle)
    ensures forall x | c < x <= y :: run[x].threads[t].prog == run[y].threads[t].prog
  {
    SaveStays(g, run, t, i, j, reply, y - 1);
    assert NextAt(g, run, y - 1);
    OwnStep(g, run[y - 1], run[y], t);
    if run[y - 1].threads[t].prog == run[y].threads[t].prog {
      c := LedTo(g, run, t, i, j, reply, y - 1);
    } else {
      c := y - 1;
    }
  }

  /** A saving thread that is still counting has counted all along. */
  lemma {:induction false} StillCounting(g: Geometry, run: seq<State>, t: nat, i: nat, j: nat, reply: Reply, y: nat)
    requires Run(g, run) && Saving(run, t, i, j, reply) && i <= y < j && run[y].threads[t].prog.SaveCount?
    ensures forall x | i <= x <= y :: run[x].threads[t].prog == SaveCount
  {
    if i < y {
      SaveStays(g, run, t, i, j, reply, y - 1);
      assert NextAt(g, run, y - 1);
      OwnStep(g, run[y - 1], run[y], t);
      StillCounting(g, run, t, i, j, reply, y - 1);
    }
  }

  /** The pass that ended with a re-count came after a count of n that was not 0. */
  lemma Recounted(g: Geometry, run: seq<State>, t: nat, i: nat, j: nat, reply: Reply, d: nat, n: nat, m: nat)
      returns (c: nat)
    requires Run(g, run) && Saving(run, t, i, j, reply) && i <= d < j
    requires run[d].threads[t] == Thread(SaveRecount(n), Return(Counted(m)))
    ensures i < c < d && n > 0
    ensures Pass(run, t, i, c, SaveCount, Counted(n)) && Pass(run, t, c + 1, d, SaveRecount(n), Counted(m))
  {
    c := LedTo(g, run, t, i, j, reply, d);
    StillCounting(g, run, t, i, j, reply, c);
  }

  /** A copy was made after a re-count that agreed with the count. */
  lemma CopyPasses(g: Geometry, run: seq<State>, t: nat, i: nat, j: nat, cap: nat, out: seq<Entry>)
      returns (c: nat, d: nat, e: nat)
    requires Run(g, run) && Saving(run, t, i, j, SaveCopied(cap, out))
    ensures i < c < d < e < j && cap > 0
    ensures Pass(run, t, i, c, SaveCount, Counted(cap)) && Pass(run, t, c + 1, d, SaveRecount(cap), Counted(cap))
    ensures Pass(run, t, d + 1, e, SaveCopy(cap), Copied(out))
  {
    e := LedTo(g, run, t, i, j, SaveCopied(cap, out), j);
    SaveStays(g, run, t, i, j, SaveCopied(cap, out), e);
    d := LedTo(g, run, t, i, j, SaveCopied(cap, out), e);
    SaveStays(g, run, t, i, j, SaveCopied(cap, out), d);
    c := Recounted(g, run, t, i, j, SaveCopied(cap, out), d, cap, cap);
  }

  // ---- the scan inside a pass ----

  lemma {:induction false} ScanStart(g: Geometry, run: seq<State>, t: nat, a: nat, e: nat, p: Prog, op: Op)
      returns (s: nat)
    requires Run(g, run) && a <= e < |run| && OpOf(p) == Some(op) && !Keyed(op)
    requires forall y | a <= y <= e :: t < |run[y].threads| && run[y].threads[t].prog == p
    requires run[a].threads[t].pc == Idle && run[e].threads[t].pc.Scan?
    ensures a < s <= e && Scanning(run, t, s, e, StartAcc(op))
  {
    assert NextAt(g, run, e - 1);
    OwnStep(g, run[e - 1], run[e], t);
    if run[e - 1].threads[t].pc.Scan? {
      s := ScanStart(g, run, t, a, e - 1, p, op);
    } else {
      s := e;
    }
  }

  lemma {:induction false} ScanInside(g: Geometry, run: seq<State>, t: nat, a: nat, b: nat,
                                      p: Prog, op: Op, res: Result)
      returns (s: nat, e: nat)
    requires Run(g, run) && Pass(run, t, a, b, p, res) && OpOf(p) == Some(op) && !Keyed(op) && op != Snapshot(0)
    ensures a < s <= e < b && Scanning(run, t, s, e, StartAcc(op)) && run[e + 1].threads[t].pc == Return(res)
  {
    assert NextAt(g, run, b - 1);
    OwnStep(g, run[b - 1], run[b], t);
    if run[b - 1].threads[t].pc.Return? {
      s, e := ScanInside(g, run, t, a, b - 1, p, op, res);
    } else {
      e := b - 1;
      s := ScanStart(g, run, t, a, e, p, op);
    }
  }

  /** What one count of a save returned is the number of entries its visits saw. */
  lemma PassCounted(g: Geometry, run: seq<State>, t: nat, a: nat, b: nat, p: Prog, n: nat)
      returns (vs: seq<nat>, es: seq<Chain>)
    requires Run(g, run) && Pass(run, t, a, b, p, Counted(n)) && OpOf(p) == Some(Count)
    ensures Visits(g, run, a, b, vs, es) && |es| == g.n && n == |Flatten(es)|
  {
    var s, e := ScanInside(g, run, t, a, b, p, Count, Counted(n));
    vs, es := CountVisits(g, run, t, s, e, n);
  }

  /** What one copy of a save returned is what its visits saw, as far as it fits. */
  lemma PassCopied(g: Geometry, run: seq<State>, t: nat, a: nat, b: nat, cap: nat, out: seq<Entry>)
      returns (vs: seq<nat>, es: seq<Chain>)
    requires Run(g, run) && Pass(run, t, a, b, SaveCopy(cap), Copied(out)) && cap > 0
    ensures Visits(g, run, a, b, vs, es) && CutOf(g, es, cap, out)
  {
    var s, e := ScanInside(g, run, t, a, b, SaveCopy(cap), Snapshot(cap), Copied(out));
    vs, es := SnapshotVisits(g, run, t, s, e, cap, out);
  }

  /** Whatever other threads did: the capacity is what the re-count saw, and the copy is what a
      scan after it saw, cut at the capacity; distinct keys, each with a value it had, and
      everything that stayed unless more was seen than there was room for. */
  lemma {:induction false} CopySaw(g: Geometry, run: seq<State>, t: nat, i: nat, j: nat, cap: nat, out: seq<Entry>)
      returns (d: nat, ws: seq<nat>, fs: seq<Chain>, vs: seq<nat>, es: seq<Chain>)
    requires Run(g, run) && Saving(run, t, i, j, SaveCopied(cap, out))
    ensures i < d < j && cap > 0
    ensures Visits(g, run, i, d, ws, fs) && |fs| == g.n && |Flatten(fs)| == cap
    ensures Visits(g, run, d + 1, j, vs, es) && CutOf(g, es, cap, out)
    ensures Distinct(out) && |out| <= cap && AllSeen(run, i, j, out)
    ensures Keys(out) == Keys(Flatten(es)) <==> |Flatten(es)| <= cap
    ensures |Flatten(es)| <= cap ==> forall k: u64 | Throughout(run, i, j, k) :: k in Keys(out)
  {
    var c, e;
    c, d, e := CopyPasses(g, run, t, i, j, cap, out);
    ws, fs := PassCounted(g, run, t, c + 1, d, SaveRecount(cap), cap);
    vs, es := PassCopied(g, run, t, d + 1, e, cap, out);
    CutGuarantee(g, run, d + 1, e, vs, es, cap, out);
    forall n | 0 <= n < |out| ensures PairSeen(run, i, j, out[n]) { assert PairSeen(run, d + 1, e, out[n]); }
    forall k: u64 | Throughout(run, i, j, k) ensures Throughout(run, d + 1, e, k) {}
  }

  /** When no key appears during the save, a copy misses none that is left, though others go. */
  lemma CopyWithoutInserts(g: Geometry, run: seq<State>, t: nat, i: nat, j: nat, cap: nat, out: seq<Entry>)
    requires Run(g, run) && Saving(run, t, i, j, SaveCopied(cap, out)) && NoneAppears(run, i, j)
    ensures run[j].m.Keys <= Keys(out) <= run[i].m.Keys
  {
    var d, ws, fs, vs, es := CopySaw(g, run, t, i, j, cap, out);
    SeesNoMore(g, run, i, d, j, ws, fs, vs, es);
    SeenBetween(g, run, d + 1, j, vs, es);
    Remained(run, i, j, i, d + 1);
  }

  // ---- exactly when the counts disagree ----

  /** The daemon was told n, and the kernel then counted m. */
  ghost predicate Counts(run: seq<State>, t: nat, i: nat, j: nat, n: nat, m: nat) {
    exists c: nat, d: nat :: i < c < d < j < |run| && CountsAt(run, t, c, d, n, m)
  }

  ghost predicate CountsAt(run: seq<State>, t: nat, c: nat, d: nat, n: nat, m: nat) {
    && c < |run| && t < |run[c].threads| && run[c].threads[t] == Thread(SaveCount, Return(Counted(n)))
    && d < |run| && t < |run[d].threads| && run[d].threads[t] == Thread(SaveRecount(n), Return(Counted(m)))
  }

  /** Where a thread that has a result goes. */
  lemma {:induction false} LeadsTo(g: Geometry, run: seq<State>, t: nat, i: nat, j: nat, reply: Reply, d: nat)
      returns (y: nat)
    requires Run(g, run) && Saving(run, t, i, j, reply) && i <= d < j && run[d].threads[t].pc.Return?
    ensures d <= y < j && Resumes(run[d].threads[t].prog, run[d].threads[t].pc.res, run[y + 1].threads[t].prog)
    decreases j - d
  {
    SaveStays(g, run, t, i, j, reply, d);
    assert NextAt(g, run, d);
    OwnStep(g, run[d], run[d + 1], t);
    if run[d + 1].threads[t] == run[d].threads[t] {
      y := LeadsTo(g, run, t, i, j, reply, d + 1);
    } else {
      y := d;
    }
  }

  lemma MismatchCounts(g: Geometry, run: seq<State>, t: nat, i: nat, j: nat, cap: nat) returns (m: nat)
    requires Run(g, run) && Saving(run, t, i, j, SaveMismatch(cap))
    ensures m != cap && Counts(run, t, i, j, cap, m)
  {
    var d := LedTo(g, run, t, i, j, SaveMismatch(cap), j);
    SaveStays(g, run, t, i, j, SaveMismatch(cap), d);
    m := run[d].threads[t].pc.res.count;
    var c := Recounted(g, run, t, i, j, SaveMismatch(cap), d, cap, m);
    assert CountsAt(run, t, c, d, cap, m);
  }

  lemma CopyCounts(g: Geometry, run: seq<State>, t: nat, i: nat, j: nat, cap: nat, out: seq<Entry>)
    requires Run(g, run) && Saving(run, t, i, j, SaveCopied(cap, out))
    ensures Counts(run, t, i, j, cap, cap)
  {
    var c, d, e := CopyPasses(g, run, t, i, j, cap, out);
    assert CountsAt(run, t, c, d, cap, cap);
  }

  lemma CountsMismatch(g: Geometry, run: seq<State>, t: nat, i: nat, j: nat, reply: Reply, n: nat, m: nat)
    requires Run(g, run) && Saving(run, t, i, j, reply) && Counts(run, t, i, j, n, m) && n != m
    ensures reply == SaveMismatch(n)
  {
    var c: nat, d: nat :| i < c < d < j && CountsAt(run, t, c, d, n, m);
    var y := LeadsTo(g, run, t, i, j, reply, d);
  }

  /** The reply is a mismatch if and only if the re-count differed from what the daemon had been
      told, and a copy only if it did not; a differing count is neither copied nor failed. */
  lemma MismatchExactly(g: Geometry, run: seq<State>, t: nat, i: nat, j: nat, reply: Reply)
    requires Run(g, run) && Saving(run, t, i, j, reply)
    ensures reply.SaveMismatch? <==> exists n: nat, m: nat :: n != m && Counts(run, t, i, j, n, m)
    ensures reply.SaveCopied? ==> Counts(run, t, i, j, reply.cap, reply.cap)
  {
    if reply.SaveMismatch? { var m := MismatchCounts(g, run, t, i, j, reply.cap); }
    if reply.SaveCopied? { CopyCounts(g, run, t, i, j, reply.cap, reply.out); }
    forall n: nat, m: nat | n != m && Counts(run, t, i, j, n, m) ensures reply.SaveMismatch? {
      CountsMismatch(g, run, t, i, j, reply, n, m);
    }
  }

  /** The two numbers are what two scans saw, the second after the first. */
  lemma {:induction false} CountsSaw(g: Geometry, run: seq<State>, t: nat, i: nat, j: nat, reply: Reply, n: nat, m: nat)
      returns (c: nat, vs: seq<nat>, es: seq<Chain>, ws: seq<nat>, fs: seq<Chain>)
    requires Run(g, run) && Saving(run, t, i, j, reply) && Counts(run, t, i, j, n, m)
    ensures i < c < j && |es| == |fs| == g.n && n == |Flatten(es)| && m == |Flatten(fs)|
    ensures Visits(g, run, i, c, vs, es) && Visits(g, run, c + 1, j, ws, fs)
  {
    var x: nat, d: nat :| i < x < d < j && CountsAt(run, t, x, d, n, m);
    c := Recounted(g, run, t, i, j, reply, d, n, m);
    vs, es := PassCounted(g, run, t, i, c, SaveCount, n);
    ws, fs := PassCounted(g, run, t, c + 1, d, SaveRecount(n), m);
  }

  // ---- with no key coming or going, the copy is complete ----

  /** The reply of a save during which the keys were those of m: a mismatch is impossible, and
      a copy lists exactly these keys, each with a value it had during the save. */
  ghost predicate CompleteSave(run: seq<State>, i: nat, j: nat, keys: set<u64>, reply: Reply) {
    match reply
    case SaveFailed => true
    case SaveNothing => keys == {}
    case SaveCopied(cap, out) =>
      cap == |out| == |keys| > 0 && Distinct(out) && Keys(out) == keys && AllSeen(run, i, j, out)
    case _ => false
  }

  lemma QuietPass(g: Geometry, run: seq<State>, t: nat, a: nat, b: nat, p: Prog, n: nat, keys: set<u64>)
    requires Run(g, run) && Pass(run, t, a, b, p, Counted(n)) && OpOf(p) == Some(Count) && SameKeys(run, a, b, keys)
    ensures n == |keys|
  {
    var s, e := ScanInside(g, run, t, a, b, p, Count, Counted(n));
    CountQuiescent(g, run, t, s, e, n, keys);
  }

  lemma QuietCopyPass(g: Geometry, run: seq<State>, t: nat, a: nat, b: nat, cap: nat, out: seq<Entry>, keys: set<u64>)
    requires Run(g, run) && Pass(run, t, a, b, SaveCopy(cap), Copied(out)) && cap == |keys| > 0
    requires SameKeys(run, a, b, keys)
    ensures |out| == cap && Distinct(out) && Keys(out) == keys && AllSeen(run, a, b, out)
  {
    var s, e := ScanInside(g, run, t, a, b, SaveCopy(cap), Snapshot(cap), Copied(out));
    SnapshotQuiescent(g, run, t, s, e, cap, out, keys);
    forall n | 0 <= n < |out| ensures PairSeen(run, a, b, out[n]) { assert PairSeen(run, s, e, out[n]); }
  }

  lemma QuietCopy(g: Geometry, run: seq<State>, t: nat, i: nat, j: nat, cap: nat, out: seq<Entry>, keys: set<u64>)
    requires Run(g, run) && Saving(run, t, i, j, SaveCopied(cap, out)) && SameKeys(run, i, j, keys)
    ensures CompleteSave(run, i, j, keys, SaveCopied(cap, out))
  {
    var c, d, e := CopyPasses(g, run, t, i, j, cap, out);
    QuietPass(g, run, t, i, c, SaveCount, cap, keys);
    QuietCopyPass(g, run, t, d + 1, e, cap, out, keys);
    forall n | 0 <= n < |out| ensures PairSeen(run, i, j, out[n]) { assert PairSeen(run, d + 1, e, out[n]); }
  }

  lemma QuietCounts(g: Geometry, run: seq<State>, t: nat, i: nat, j: nat, reply: Reply, n: nat, m: nat, keys: set<u64>)
    requires Run(g, run) && Saving(run, t, i, j, reply) && SameKeys(run, i, j, keys) && Counts(run, t, i, j, n, m)
    ensures n == m == |keys|
  {
    var x: nat, d: nat :| i < x < d < j && CountsAt(run, t, x, d, n, m);
    var c := Recounted(g, run, t, i, j, reply, d, n, m);
    QuietPass(g, run, t, i, c, SaveCount, n, keys);
    QuietPass(g, run, t, c + 1, d, SaveRecount(n), m, keys);
  }

  /** Replacing values in place does not disturb a save; only keys that come or go can. */
  lemma SaveQuiescent(g: Geometry, run: seq<State>, t: nat, i: nat, j: nat, reply: Reply, keys: set<u64>)
    requires Run(g, run) && Saving(run, t, i, j, reply) && SameKeys(run, i, j, keys)
    ensures CompleteSave(run, i, j, keys, reply)
  {
    match reply {
      case SaveCopied(cap, out) => QuietCopy(g, run, t, i, j, cap, out, keys);
      case SaveNothing =>
        var c := LedTo(g, run, t, i, j, reply, j);
        SaveStays(g, run, t, i, j, reply, c);
        StillCounting(g, run, t, i, j, reply, c);
        QuietPass(g, run, t, i, c, SaveCount, 0, keys);
      case SaveMismatch(cap) =>
        var m := MismatchCounts(g, run, t, i, j, cap);
        QuietCounts(g, run, t, i, j, reply, cap, m, keys);
        assert false;
      case SaveFailed =>
      case _ =>
        var c := LedTo(g, run, t, i, j, reply, j);
        SaveStays(g, run, t, i, j, reply, c);
        assert false;
    }
  }

  // ---- the same of every interleaving of single-node steps ----

  lemma QuiescentSaveIsComplete(g: Geometry, run: seq<Machine.State>, t: nat, i: nat, j: nat, reply: Reply,
                                keys: set<u64>)
    requires Machine.Run(g, run) && Saving(ViewRun(run), t, i, j, reply) && SameKeys(ViewRun(run), i, j, keys)
    ensures CompleteSave(ViewRun(run), i, j, keys, reply)
  {
    Refinement.RunRefines(g, run);
    SaveQuiescent(g, ViewRun(run), t, i, j, reply, keys);
  }
}
