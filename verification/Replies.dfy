/** What the answer to a request says: the operations its handler carried out, one after another and
    nothing else, and the state of the map in which each of them took effect. */
module Replies {
  import opened KvTypes
  import opened Chains
  import opened Requests
  import opened AtomicStore
  import Machine
  import Refinement
  import opened Scans
  import opened Races
  import opened ThreePass

  /** Thread t serves the request r from state i to its reply in state j. */
  ghost predicate Serving(run: seq<State>, t: nat, i: nat, j: nat, r: Request, reply: Reply) {
    && i < j < |run|
    && (forall y | i <= y <= j :: t < |run[y].threads|)
    && run[i].threads[t] == Thread(Begin(r), Idle)
    && (forall y | i <= y < j :: !run[y].threads[t].prog.Replied?)
    && run[j].threads[t].prog == Replied(reply)
  }

  /** Where the handler of r can be. */
  predicate Stage(r: Request, p: Prog) {
    match r
    case Insert(k, v) => p == InsertLook(k, v) || p == InsertAdd(k, v)
    case Update(k, v) => p == UpdateLook(k, v) || p == UpdateAdd(k, v)
    case GetKey(k) => p == GetLook(k)
    case DeleteKey(k) => p == DeleteOne(k)
    case SaveSnapshot => p.SaveCount? || p.SaveRecount? || p.SaveCopy?
    case SnapshotIoctl(cap) => p == SaveRecount(cap) || p == SaveCopy(cap)
  }

  lemma {:induction false} StageStays(g: Geometry, run: seq<State>, t: nat, i: nat, j: nat, r: Request, reply: Reply,
                                      y: nat)
    requires Run(g, run) && Serving(run, t, i, j, r, reply) && i <= y < j
    ensures Stage(r, run[y].threads[t].prog)
  {
    if i < y {
      StageStays(g, run, t, i, j, r, reply, y - 1);
      assert NextAt(g, run, y - 1);
      OwnStep(g, run[y - 1], run[y], t);
    }
  }

  /** Where a handler came to the program it is running in state c. */
  lemma {:induction false} Entered(g: Geometry, run: seq<State>, t: nat, i: nat, j: nat, r: Request, reply: Reply,
                                   c: nat) returns (x: nat)
    requires Run(g, run) && Serving(run, t, i, j, r, reply) && i <= c < j
    ensures i <= x <= c && run[x].threads[t].pc.Idle?
    ensures forall y | x <= y <= c :: run[y].threads[t].prog == run[c].threads[t].prog
    ensures Stage(r, run[c].threads[t].prog)
    ensures x > i ==>
              && run[x - 1].threads[t].pc.Return? && Stage(r, run[x - 1].threads[t].prog)
              && Resumes(run[x - 1].threads[t].prog, run[x - 1].threads[t].pc.res, run[c].threads[t].prog)
  {
    StageStays(g, run, t, i, j, r, reply, c);
    if c == i {
      x := i;
    } else {
      StageStays(g, run, t, i, j, r, reply, c - 1);
      assert NextAt(g, run, c - 1);
      OwnStep(g, run[c - 1], run[c], t);
      if run[c - 1].threads[t].prog == run[c].threads[t].prog {
        x := Entered(g, run, t, i, j, r, reply, c - 1);
      } else {
        x := c;
      }
    }
  }

  /** The step with which the reply is given. */
  lemma ReplyStep(g: Geometry, run: seq<State>, t: nat, i: nat, j: nat, r: Request, reply: Reply)
    requires Run(g, run) && Serving(run, t, i, j, r, reply)
    ensures var th := run[j - 1].threads[t];
            Stage(r, th.prog) && th.pc.Return? && Resumes(th.prog, th.pc.res, Replied(reply))
  {
    StageStays(g, run, t, i, j, r, reply, j - 1);
    assert NextAt(g, run, j - 1);
    OwnStep(g, run[j - 1], run[j], t);
  }

  // ---- the effect of one keyed operation ----

  /** From state x to state y no operation of thread t takes effect but at steps a and b. */
  ghost predicate OnlyActs(g: Geometry, run: seq<State>, t: nat, x: nat, y: nat, a: nat, b: nat) {
    forall c: nat, op: Op | x <= c < y && Acts(g, run, c, t, op) :: c == a || c == b
  }

  ghost predicate NoActs(g: Geometry, run: seq<State>, t: nat, x: nat, y: nat) {
    forall c: nat, op: Op | x <= c < y :: !Acts(g, run, c, t, op)
  }

  /** A thread that has called an operation and has no result yet. */
  lemma {:induction false} NotYet(g: Geometry, run: seq<State>, t: nat, x: nat, c: nat, p: Prog)
    requires Run(g, run) && x <= c < |run| && OpOf(p).Some? && Keyed(OpOf(p).value)
    requires forall y | x <= y <= c :: t < |run[y].threads| && run[y].threads[t].prog == p
    requires run[x].threads[t].pc.Idle? && !run[c].threads[t].pc.Return?
    ensures NoActs(g, run, t, x, c)
  {
    if x < c {
      assert NextAt(g, run, c - 1);
      OwnStep(g, run[c - 1], run[c], t);
      NotYet(g, run, t, x, c - 1, p);
    }
  }

  /** Its operation takes effect at one step, with the result it returns; or it was an add for which
      no string could be allocated. */
  ghost predicate OneEffect(g: Geometry, run: seq<State>, t: nat, x: nat, y: nat, op: Op, res: Result, a: nat) {
    || (&& x <= a < y && Acts(g, run, a, t, op) && ResultAt(run, a, t) == res && OnlyActs(g, run, t, x, y, a, a)
        && Effect(op, run[a].m, run[a + 1].m, res))
    || (op.Add? && res == Err(-ENOMEM) && NoActs(g, run, t, x, y))
  }

  lemma {:induction false} PassActs(g: Geometry, run: seq<State>, t: nat, x: nat, y: nat, p: Prog, op: Op, res: Result)
      returns (a: nat)
    requires Run(g, run) && Pass(run, t, x, y, p, res) && OpOf(p) == Some(op) && Keyed(op)
    ensures OneEffect(g, run, t, x, y, op, res, a)
  {
    assert x < y;
    assert NextAt(g, run, y - 1);
    OwnStep(g, run[y - 1], run[y], t);
    if run[y - 1].threads[t].pc.Return? {
      a := PassActs(g, run, t, x, y - 1, p, op, res);
    } else {
      NotYet(g, run, t, x, y - 1, p);
      a := y - 1;
    }
  }

  // ---- what each keyed request is answered ----

  /** The key was looked up at step a, which changed nothing. */
  ghost predicate LooksUp(g: Geometry, run: seq<State>, t: nat, i: nat, j: nat, k: u64, a: nat) {
    i <= a && a + 1 < j < |run| && Acts(g, run, a, t, Lookup(k, 64)) && run[a + 1].m == run[a].m
  }

  ghost predicate GetMeans(g: Geometry, run: seq<State>, t: nat, i: nat, j: nat, k: u64, reply: Reply, a: nat) {
    && LooksUp(g, run, t, i, j, k, a) && OnlyActs(g, run, t, i, j, a, a)
    && reply == if Readable(run[a].m, k) then GotValue(k, run[a].m[k]) else GetMissing(k)
  }

  ghost predicate DeleteMeans(g: Geometry, run: seq<State>, t: nat, i: nat, j: nat, k: u64, reply: Reply, a: nat) {
    && i <= a && a + 1 < j < |run|
    && Acts(g, run, a, t, Remove(k)) && OnlyActs(g, run, t, i, j, a, a)
    && run[a + 1].m == run[a].m - {k}
    && reply == if k in run[a].m then DeleteDone(k) else DeleteMissing(k)
  }

  /** An insert is refused if and only if its lookup saw a readable value, an update if and only if it
      saw none; otherwise the value is stored at a later step b, or there was no memory for its string
      or, the key being absent, for its entry, and nothing is stored. */
  ghost predicate PutMeans(g: Geometry, run: seq<State>, t: nat, i: nat, j: nat, insert: bool, k: u64, v: CText,
                           reply: Reply, a: nat, b: nat)
  {
    && LooksUp(g, run, t, i, j, k, a)
    && if Readable(run[a].m, k) == insert then
         OnlyActs(g, run, t, i, j, a, a) && reply == if insert then InsertExists(k) else UpdateMissing(k)
       else if reply == NoMemory then
         || OnlyActs(g, run, t, i, j, a, a)
         || (StoresAt(g, run, t, i, j, k, v, a, b) && k !in run[b].m && run[b + 1].m == run[b].m)
       else
         && reply == (if insert then InsertDone(k) else UpdateDone(k))
         && StoresAt(g, run, t, i, j, k, v, a, b) && run[b + 1].m == run[b].m[k := v]
  }

  ghost predicate StoresAt(g: Geometry, run: seq<State>, t: nat, i: nat, j: nat, k: u64, v: CText, a: nat, b: nat) {
    a < b && b + 1 < j < |run| && Acts(g, run, b, t, Add(k, v)) && OnlyActs(g, run, t, i, j, a, b)
  }

  lemma {:induction false} GetServed(g: Geometry, run: seq<State>, t: nat, i: nat, j: nat, k: u64, reply: Reply)
      returns (a: nat)
    requires Run(g, run) && Serving(run, t, i, j, GetKey(k), reply)
    ensures GetMeans(g, run, t, i, j, k, reply, a)
  {
    ReplyStep(g, run, t, i, j, GetKey(k), reply);
    var x := Entered(g, run, t, i, j, GetKey(k), reply, j - 1);
    a := PassActs(g, run, t, i, j - 1, GetLook(k), Lookup(k, 64), run[j - 1].threads[t].pc.res);
  }

  lemma {:induction false} DeleteServed(g: Geometry, run: seq<State>, t: nat, i: nat, j: nat, k: u64, reply: Reply)
      returns (a: nat)
    requires Run(g, run) && Serving(run, t, i, j, DeleteKey(k), reply)
    ensures DeleteMeans(g, run, t, i, j, k, reply, a)
  {
    ReplyStep(g, run, t, i, j, DeleteKey(k), reply);
    var x := Entered(g, run, t, i, j, DeleteKey(k), reply, j - 1);
    a := PassActs(g, run, t, i, j - 1, DeleteOne(k), Remove(k), run[j - 1].threads[t].pc.res);
  }

  function PutRequest(insert: bool, k: u64, v: CText): Request {
    if insert then Insert(k, v) else Update(k, v)
  }

  /** The two passes of an insert or update that was not refused, or the one of a refused one. */
  lemma {:induction false} PutPasses(g: Geometry, run: seq<State>, t: nat, i: nat, j: nat, insert: bool, k: u64,
                                     v: CText, reply: Reply) returns (x: nat)
    requires Run(g, run) && Serving(run, t, i, j, PutRequest(insert, k, v), reply)
    ensures run[j - 1].threads[t].pc.Return?
    ensures Resumes(run[j - 1].threads[t].prog, run[j - 1].threads[t].pc.res, Replied(reply))
    ensures x == i || i < x - 1 < j
    ensures x == i ==> Pass(run, t, i, j - 1, LookProg(insert, k, v), run[j - 1].threads[t].pc.res)
    ensures x > i ==>
              && run[x - 1].threads[t].pc.Return?
              && Pass(run, t, i, x - 1, LookProg(insert, k, v), run[x - 1].threads[t].pc.res)
              && Resumes(LookProg(insert, k, v), run[x - 1].threads[t].pc.res, AddProg(insert, k, v))
              && Pass(run, t, x, j - 1, AddProg(insert, k, v), run[j - 1].threads[t].pc.res)
  {
    var r := PutRequest(insert, k, v);
    ReplyStep(g, run, t, i, j, r, reply);
    x := Entered(g, run, t, i, j, r, reply, j - 1);
    if x > i { var w := Entered(g, run, t, i, j, r, reply, x - 1); }
  }

  /** After a lookup alone the request is refused. */
  lemma {:induction false} PutRefused(g: Geometry, run: seq<State>, t: nat, i: nat, j: nat, insert: bool, k: u64,
                                      v: CText, reply: Reply, res: Result) returns (a: nat)
    requires Run(g, run) && 0 < j < |run| && Pass(run, t, i, j - 1, LookProg(insert, k, v), res)
    requires Resumes(LookProg(insert, k, v), res, Replied(reply))
    ensures PutMeans(g, run, t, i, j, insert, k, v, reply, a, a)
  {
    a := PassActs(g, run, t, i, j - 1, LookProg(insert, k, v), Lookup(k, 64), res);
  }

  /** The effects of two passes that follow each other. */
  lemma {:induction false} TwoEffects(g: Geometry, run: seq<State>, t: nat, i: nat, x: nat, j: nat, a: nat, b: nat)
    requires i < x < j < |run| && t < |run[x - 1].threads| && t < |run[j - 1].threads|
    requires run[x - 1].threads[t].pc.Return? && run[j - 1].threads[t].pc.Return?
    requires OnlyActs(g, run, t, i, x - 1, a, a) && OnlyActs(g, run, t, x, j - 1, b, b)
    ensures OnlyActs(g, run, t, i, j, a, b)
  {
    forall c: nat, op: Op | i <= c < j && Acts(g, run, c, t, op) ensures c == a || c == b {
      assert c != x - 1 && c != j - 1;
    }
  }

  /** After the add as well the value is stored, or there was no memory. */
  lemma {:induction false} PutAccepted(g: Geometry, run: seq<State>, t: nat, i: nat, x: nat, j: nat, insert: bool,
                                       k: u64, v: CText, reply: Reply, look: Result, res: Result)
      returns (a: nat, b: nat)
    requires Run(g, run) && i < x - 1 < j < |run| && Pass(run, t, i, x - 1, LookProg(insert, k, v), look)
    requires Resumes(LookProg(insert, k, v), look, AddProg(insert, k, v))
    requires Pass(run, t, x, j - 1, AddProg(insert, k, v), res) && Resumes(AddProg(insert, k, v), res, Replied(reply))
    ensures PutMeans(g, run, t, i, j, insert, k, v, reply, a, b)
  {
    a := PassActs(g, run, t, i, x - 1, LookProg(insert, k, v), Lookup(k, 64), look);
    b := PassActs(g, run, t, x, j - 1, AddProg(insert, k, v), Add(k, v), res);
    if NoActs(g, run, t, x, j - 1) {
      TwoEffects(g, run, t, i, x, j, a, a);
      b := a;
    } else {
      TwoEffects(g, run, t, i, x, j, a, b);
    }
  }

  lemma {:induction false} PutServed(g: Geometry, run: seq<State>, t: nat, i: nat, j: nat, insert: bool, k: u64,
                                     v: CText, reply: Reply) returns (a: nat, b: nat)
    requires Run(g, run) && Serving(run, t, i, j, PutRequest(insert, k, v), reply)
    ensures PutMeans(g, run, t, i, j, insert, k, v, reply, a, b)
  {
    var x := PutPasses(g, run, t, i, j, insert, k, v, reply);
    var res := run[j - 1].threads[t].pc.res;
    if x == i {
      a := PutRefused(g, run, t, i, j, insert, k, v, reply, res);
      b := a;
    } else {
      a, b := PutAccepted(g, run, t, i, x, j, insert, k, v, reply, run[x - 1].threads[t].pc.res, res);
    }
  }

  // ---- what a snapshot request is answered ----

  /** The result of a count is a number, that of a snapshot the copies; but a snapshot of capacity 0 is
      refused. */
  lemma {:induction false} ScanResults(g: Geometry, run: seq<State>, t: nat, x: nat, y: nat, p: Prog, op: Op,
                                       res: Result)
    requires Run(g, run) && Pass(run, t, x, y, p, res) && OpOf(p) == Some(op) && !Keyed(op) && op != Snapshot(0)
    ensures if op.Count? then res.Counted? else res.Copied?
  {
    var s, e := ScanInside(g, run, t, x, y, p, op, res);
    var vs, es := VisitedSoFar(g, run, t, s, e, StartAcc(op));
    assert NextAt(g, run, e);
    OwnStep(g, run[e], run[e + 1], t);
  }

  lemma {:induction false} RefusedSnapshot(g: Geometry, run: seq<State>, t: nat, x: nat, y: nat)
    requires Run(g, run) && x <= y < |run|
    requires forall c | x <= c <= y :: t < |run[c].threads| && run[c].threads[t].prog == SaveCopy(0)
    requires run[x].threads[t].pc.Idle?
    ensures run[y].threads[t].pc.Idle? || run[y].threads[t].pc == Return(Err(-EINVAL))
  {
    if x < y {
      RefusedSnapshot(g, run, t, x, y - 1);
      assert NextAt(g, run, y - 1);
      OwnStep(g, run[y - 1], run[y], t);
    }
  }

  /** What a copy of capacity cap is answered. */
  lemma {:induction false} CopyAnswered(g: Geometry, run: seq<State>, t: nat, x: nat, y: nat, cap: nat, res: Result,
                                        reply: Reply)
    requires Run(g, run) && Pass(run, t, x, y, SaveCopy(cap), res) && Resumes(SaveCopy(cap), res, Replied(reply))
    ensures reply == SaveFailed || (cap > 0 && res.Copied? && reply == SaveCopied(cap, res.out))
  {
    if cap == 0 { RefusedSnapshot(g, run, t, x, y); }
  }

  /** KV_SNAPSHOT with capacity cap counts n up to state c; if n is not cap the reply is a mismatch.
      Otherwise it is a copy of what a scan then made, or a failure: no memory for the buffer, or the
      capacity is 0. */
  ghost predicate IoctlMeans(run: seq<State>, t: nat, i: nat, j: nat, cap: nat, reply: Reply, c: nat, n: nat) {
    && i < c < j && Pass(run, t, i, c, SaveRecount(cap), Counted(n))
    && if n != cap then reply == SaveMismatch(cap)
       else
         || reply == SaveFailed
         || (cap > 0 && reply.SaveCopied? && reply.cap == cap && c + 1 < j
             && Pass(run, t, c + 1, j - 1, SaveCopy(cap), Copied(reply.out)))
  }

  /** The count of KV_SNAPSHOT ends in state c; a copy, if there is one, follows it. */
  lemma {:induction false} IoctlPasses(g: Geometry, run: seq<State>, t: nat, i: nat, j: nat, cap: nat, reply: Reply)
      returns (c: nat)
    requires Run(g, run) && Serving(run, t, i, j, SnapshotIoctl(cap), reply)
    ensures i < c < j && run[c].threads[t].pc.Return?
    ensures Pass(run, t, i, c, SaveRecount(cap), run[c].threads[t].pc.res)
    ensures var res, last := run[c].threads[t].pc.res, run[j - 1].threads[t].pc;
            if c == j - 1 then Resumes(SaveRecount(cap), res, Replied(reply))
            else
              && last.Return? && Resumes(SaveRecount(cap), res, SaveCopy(cap))
              && Pass(run, t, c + 1, j - 1, SaveCopy(cap), last.res) && Resumes(SaveCopy(cap), last.res, Replied(reply))
  {
    var r := SnapshotIoctl(cap);
    ReplyStep(g, run, t, i, j, r, reply);
    var x := Entered(g, run, t, i, j, r, reply, j - 1);
    if x == i {
      c := j - 1;
    } else {
      c := x - 1;
      var w := Entered(g, run, t, i, j, r, reply, c);
    }
  }

  lemma {:induction false} IoctlServed(g: Geometry, run: seq<State>, t: nat, i: nat, j: nat, cap: nat, reply: Reply)
      returns (c: nat, n: nat)
    requires Run(g, run) && Serving(run, t, i, j, SnapshotIoctl(cap), reply)
    ensures IoctlMeans(run, t, i, j, cap, reply, c, n)
  {
    c := IoctlPasses(g, run, t, i, j, cap, reply);
    if c < j - 1 { CopyAnswered(g, run, t, c + 1, j - 1, cap, run[j - 1].threads[t].pc.res, reply); }
    ScanResults(g, run, t, i, c, SaveRecount(cap), Count, run[c].threads[t].pc.res);
    n := run[c].threads[t].pc.res.count;
  }

  /** The daemon's save counts n up to state d; there is nothing to save if and only if n is 0. Otherwise
      the rest is KV_SNAPSHOT with that capacity, or there was no memory for the buffer. */
  ghost predicate SaveMeans(run: seq<State>, t: nat, i: nat, j: nat, reply: Reply, d: nat, n: nat) {
    && i < d < j && Pass(run, t, i, d, SaveCount, Counted(n))
    && if n == 0 then reply == SaveNothing
       else reply == SaveFailed || Serving(run, t, d + 1, j, SnapshotIoctl(n), reply)
  }

  /** Where a save stopped counting. */
  lemma {:induction false} Recounting(g: Geometry, run: seq<State>, t: nat, i: nat, j: nat, reply: Reply, c: nat)
      returns (d: nat)
    requires Run(g, run) && Serving(run, t, i, j, SaveSnapshot, reply) && i <= c < j
    requires !run[c].threads[t].prog.SaveCount?
    ensures i < d < c && run[d].threads[t].pc.Return? && run[d].threads[t].prog.SaveCount?
    ensures forall y | i <= y <= d :: run[y].threads[t].prog == SaveCount
    ensures Resumes(SaveCount, run[d].threads[t].pc.res, run[d + 1].threads[t].prog) && run[d + 1].threads[t].pc.Idle?
  {
    StageStays(g, run, t, i, j, SaveSnapshot, reply, c);
    StageStays(g, run, t, i, j, SaveSnapshot, reply, c - 1);
    assert NextAt(g, run, c - 1);
    OwnStep(g, run[c - 1], run[c], t);
    if run[c - 1].threads[t].prog.SaveCount? {
      d := c - 1;
      var x := Entered(g, run, t, i, j, SaveSnapshot, reply, d);
    } else {
      d := Recounting(g, run, t, i, j, reply, c - 1);
    }
  }

  lemma {:induction false} SaveServed(g: Geometry, run: seq<State>, t: nat, i: nat, j: nat, reply: Reply)
      returns (d: nat, n: nat)
    requires Run(g, run) && Serving(run, t, i, j, SaveSnapshot, reply)
    ensures SaveMeans(run, t, i, j, reply, d, n)
  {
    ReplyStep(g, run, t, i, j, SaveSnapshot, reply);
    if run[j - 1].threads[t].prog.SaveCount? {
      var x := Entered(g, run, t, i, j, SaveSnapshot, reply, j - 1);
      d := j - 1;
    } else {
      d := Recounting(g, run, t, i, j, reply, j - 1);
    }
    ScanResults(g, run, t, i, d, SaveCount, Count, run[d].threads[t].pc.res);
    n := run[d].threads[t].pc.res.count;
  }

  /** What the reply to a request says; a and b are steps of the run, or for a snapshot the end of its
      first count and what that counted. */
  ghost predicate Means(g: Geometry, run: seq<State>, t: nat, i: nat, j: nat, r: Request, reply: Reply, a: nat, b: nat)
  {
    match r
    case Insert(k, v) => PutMeans(g, run, t, i, j, true, k, v, reply, a, b)
    case Update(k, v) => PutMeans(g, run, t, i, j, false, k, v, reply, a, b)
    case GetKey(k) => GetMeans(g, run, t, i, j, k, reply, a)
    case DeleteKey(k) => DeleteMeans(g, run, t, i, j, k, reply, a)
    case SaveSnapshot => SaveMeans(run, t, i, j, reply, a, b)
    case SnapshotIoctl(cap) => IoctlMeans(run, t, i, j, cap, reply, a, b)
  }

  /** In every interleaving of single-node steps every reply to every request means this. */
  lemma {:induction false} EveryReply(g: Geometry, run: seq<Machine.State>, t: nat, i: nat, j: nat, r: Request,
                                      reply: Reply) returns (a: nat, b: nat)
    requires Machine.Run(g, run) && Serving(ViewRun(run), t, i, j, r, reply)
    ensures Means(g, ViewRun(run), t, i, j, r, reply, a, b)
  {
    Refinement.RunRefines(g, run);
    a, b := 0, 0;
    match r {
      case Insert(k, v) => a, b := PutServed(g, ViewRun(run), t, i, j, true, k, v, reply);
      case Update(k, v) => a, b := PutServed(g, ViewRun(run), t, i, j, false, k, v, reply);
      case GetKey(k) => a := GetServed(g, ViewRun(run), t, i, j, k, reply);
      case DeleteKey(k) => a := DeleteServed(g, ViewRun(run), t, i, j, k, reply);
      case SaveSnapshot => a, b := SaveServed(g, ViewRun(run), t, i, j, reply);
      case SnapshotIoctl(cap) => a, b := IoctlServed(g, ViewRun(run), t, i, j, cap, reply);
    }
  }
}
