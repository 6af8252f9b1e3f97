/** The specification: one finite map, and threads whose operations each happen in one
    step. Count and snapshot are the exception the code makes: they take one atomic step
    per bucket. */
module AtomicStore {
  import opened KvTypes
  import opened Chains
  import opened Requests
  import ChainMemory
  import Machine

  datatype Pc =
    | Idle
    | Pending                   // called, not yet taken effect
    | Scan(b: nat, acc: Acc)    // buckets below b have been visited
    | Return(res: Result)       // taken effect

  datatype Thread = Thread(prog: Prog, pc: Pc)

  datatype State = State(m: map<u64, CText>, threads: seq<Thread>)

  ghost predicate Init(s: State) {
    s.m == map[] && forall t | 0 <= t < |s.threads| :: s.threads[t] == Thread(Ready, Idle)
  }

  ghost predicate ClientStep(th: Thread, th': Thread) {
    || (th.pc.Idle? && th'.pc.Idle? && th.prog.Ready? && exists r: Request :: th'.prog == Begin(r))
    || (th.pc.Idle? && th'.pc.Idle? && th.prog.Replied? && th'.prog.Ready?)
    || (th.pc.Return? && th'.pc.Idle? && Resumes(th.prog, th.pc.res, th'.prog))
  }

  predicate CallStep(th: Thread, th': Thread) {
    && th.pc.Idle? && OpOf(th.prog).Some? && th'.prog == th.prog
    && var op := OpOf(th.prog).value;
       || (Keyed(op) && th'.pc == Pending)
       || (op.Add? && th'.pc == Return(Err(-ENOMEM)))
       || (op == Snapshot(0) && th'.pc == Return(Err(-EINVAL)))
       || (!Keyed(op) && op != Snapshot(0) && th'.pc == Scan(0, StartAcc(op)))
  }

  /** op on the map m may leave m' and return res. */
  predicate Effect(op: Op, m: map<u64, CText>, m': map<u64, CText>, res: Result) {
    match op
    case Add(k, v) =>
      || (m' == m[k := v] && res == Ok)
      || (k !in m && m' == m && res == Err(-ENOMEM))
    case Remove(k) =>
      && m' == m - {k}
      && res == if k in m then Ok else Err(-ENOENT)
    case Lookup(k, room) =>
      && m' == m
      && res == if k !in m then Err(-ENOENT) else if |m[k]| + 1 > room then Err(-ENOSPC) else Found(m[k])
    case Count => false
    case Snapshot(_) => false
  }

  predicate OpStep(s: State, s': State, t: nat) {
    t < |s.threads| == |s'.threads| &&
    var th, th' := s.threads[t], s'.threads[t];
    && th.pc.Pending? && OpOf(th.prog).Some? && th'.prog == th.prog && th'.pc.Return?
    && Effect(OpOf(th.prog).value, s.m, s'.m, th'.pc.res)
  }

  /** One bucket, all at once, in the order e. */
  ghost predicate VisitStep(g: Geometry, s: State, s': State, t: nat, e: Chain) {
    t < |s.threads| == |s'.threads| &&
    var th, th' := s.threads[t], s'.threads[t];
    && th.pc.Scan? && OpOf(th.prog).Some? && !Keyed(OpOf(th.prog).value) && th.pc.b < g.n
    && s'.m == s.m && th'.prog == th.prog
    && ChainMemory.Enumerates(g, s.m, th.pc.b, e)
    && var acc := Absorb(th.pc.acc, e);
       th'.pc == if acc.Copies? && |acc.out| > acc.max then Return(Copied(acc.out[..acc.max]))
                 else Scan(th.pc.b + 1, acc)
  }

  predicate FinishStep(g: Geometry, s: State, s': State, t: nat) {
    t < |s.threads| == |s'.threads| &&
    var th, th' := s.threads[t], s'.threads[t];
    && th.pc.Scan? && OpOf(th.prog).Some? && !Keyed(OpOf(th.prog).value) && th.pc.b == g.n && s'.m == s.m
    && th' == Thread(th.prog, Return(ResultOf(th.pc.acc)))
  }

  ghost predicate Step(g: Geometry, s: State, s': State, t: nat) {
    && t < |s.threads| == |s'.threads|
    && s'.threads == s.threads[t := s'.threads[t]]
    && (|| (s'.m == s.m && (ClientStep(s.threads[t], s'.threads[t]) || CallStep(s.threads[t], s'.threads[t])))
        || OpStep(s, s', t)
        || (exists e: Chain :: VisitStep(g, s, s', t, e))
        || FinishStep(g, s, s', t))
  }

  /** Steps that the specification does not see leave its state alone. */
  ghost predicate Next(g: Geometry, s: State, s': State) {
    s' == s || exists t: nat :: Step(g, s, s', t)
  }

  ghost predicate NextAt(g: Geometry, run: seq<State>, i: nat) {
    i + 1 < |run| && Next(g, run[i], run[i + 1])
  }

  ghost predicate Run(g: Geometry, run: seq<State>) {
    && |run| > 0
    && forall i: nat | i + 1 < |run| :: NextAt(g, run, i)
  }

  // ---- the specification's view of the machine ----

  function ViewPc(pc: Machine.Pc): Pc {
    match pc
    case Idle => Idle
    case Wait => Pending
    case Walk(_, _) => Pending
    case Unlock(_, res) => Return(res)
    case ScanWait(b, acc) => Scan(b, acc)
    case ScanWalk(b, _, _, base) => Scan(b, base)
    case ScanUnlock(b, acc) => Scan(b + 1, acc)
    case Return(res) => Return(res)
  }

  function ViewThread(th: Machine.Thread): Thread {
    Thread(th.prog, ViewPc(th.pc))
  }

  ghost function View(s: Machine.State): (v: State)
    ensures |v.threads| == |s.threads|
    ensures forall t | 0 <= t < |s.threads| :: v.threads[t] == ViewThread(s.threads[t])
  {
    State(ChainMemory.MapOf(s.heap.node), seq(|s.threads|, t requires 0 <= t < |s.threads| => ViewThread(s.threads[t])))
  }

  ghost function ViewRun(run: seq<Machine.State>): (v: seq<State>)
    ensures |v| == |run|
    ensures forall i | 0 <= i < |run| :: v[i] == View(run[i])
  {
    seq(|run|, i requires 0 <= i < |run| => View(run[i]))
  }
}
