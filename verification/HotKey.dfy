/** The benchmark's hot key: one writer counting up, any number of readers. */
module HotKey {
  import opened KvTypes
  import opened Chains
  import opened Requests
  import opened AtomicStore
  import opened Commands
  import opened Decimal
  import Machine
  import Refinement
  import Replies
  import opened Scans
  import opened SnapshotFile

  predicate Mutates(p: Prog, k: u64) {
    || ((p.InsertLook? || p.InsertAdd? || p.UpdateLook? || p.UpdateAdd?) && p.key == k)
    || (p.DeleteOne? && p.key == k)
  }

  /** A value on its way to reader r, or just delivered. */
  function Delivered(th: Thread, k: u64): Option<CText> {
    if th.prog == GetLook(k) && th.pc.Return? && th.pc.res.Found? then Some(th.pc.res.value)
    else if th.prog.Replied? && th.prog.reply.GotValue? && th.prog.reply.key == k then Some(th.prog.reply.value)
    else None
  }

  // ---- the benchmark's command lines ----

  /** The request that the daemon sends to the kernel for a command line. */
  function RequestOf(line: CText): Option<Request> {
    match MessageOf(ParseCommand(line))
    case None => None
    case Some((KvInsert, k, field)) => Some(Insert(k, CString(field)))
    case Some((KvUpdate, k, field)) => Some(Update(k, CString(field)))
    case Some((KvGet, k, _)) => Some(GetKey(k))
    case Some((KvDelete, k, _)) => Some(DeleteKey(k))
  }

  ghost predicate InsertBegins(k: u64, n: u64) {
    && RequestOf(PrintCommand(KvInsert, k, HotValue(n))) == Some(Insert(k, HotValue(n)))
    && Begin(Insert(k, HotValue(n))) == InsertLook(k, HotValue(n))
  }

  ghost predicate UpdateBegins(k: u64, n: u64) {
    && RequestOf(PrintCommand(KvUpdate, k, HotValue(n))) == Some(Update(k, HotValue(n)))
    && Begin(Update(k, HotValue(n))) == UpdateLook(k, HotValue(n))
  }

  ghost predicate GetBegins(k: u64) {
    RequestOf(PrintCommand(KvGet, k, "")) == Some(GetKey(k)) && Begin(GetKey(k)) == GetLook(k)
  }

  /** What the kernel is made to run for the benchmark's lines: the insert of count:0, an update for
      each value of its unsigned long long counter, uncut, and a get. */
  ghost predicate LinesBegin(k: u64) {
    InsertBegins(k, 0) && GetBegins(k) && forall n: u64 :: UpdateBegins(k, n)
  }

  /** A value that fits its field arrives uncut. */
  lemma {:induction false} ValueArrives(k: u64, v: CText)
    requires v != "" && '\n' !in v && |v| < MAX_VALUE_LEN
    ensures RequestOf(PrintCommand(KvInsert, k, v)) == Some(Insert(k, v))
    ensures RequestOf(PrintCommand(KvUpdate, k, v)) == Some(Update(k, v))
  {
    CommandRoundTrip(KvInsert, k, v);
    CommandRoundTrip(KvUpdate, k, v);
  }

  lemma {:induction false} CounterFits(n: u64)
    ensures '\n' !in HotValue(n) && 0 < |HotValue(n)| < MAX_VALUE_LEN
  {
    KeyLength(n);
    assert forall c | c in ToText(n) :: IsDigit(c);
  }

  lemma {:induction false} GetArrives(k: u64)
    ensures GetBegins(k)
  {
    KeyOnlyRoundTrip(KvGet, k);
  }

  lemma {:induction false} LinesArrive(k: u64)
    ensures LinesBegin(k)
  {
    forall n: u64 ensures InsertBegins(k, n) && UpdateBegins(k, n) {
      CounterFits(n);
      ValueArrives(k, HotValue(n));
    }
    GetArrives(k);
  }

  // ---- the scenario ----

  /** The benchmark, on a run that begins in a state in which k is absent, nobody is at work on k,
      and no thread holds an answer about k. Up to state f only thread u sends anything that could
      change k, an insert of count:0, and in state f it has been told of success. From then on
      only the writer w does; its requests are updates of k to count:0, count:1, ... in this
      order, and sent[i] counts those sent up to state i. Everybody may do anything else. */
  ghost predicate Scenario(g: Geometry, run: seq<State>, u: nat, f: nat, w: nat, k: u64, sent: seq<nat>) {
    Run(g, run) && HotKeyRun(run, u, f, w, k, sent)
  }

  ghost predicate HotKeyRun(run: seq<State>, u: nat, f: nat, w: nat, k: u64, sent: seq<nat>) {
    Prepared(run, u, f, k) && SoleWriter(run, f, w, k, sent)
  }

  ghost predicate OnlyWriter(s: State, w: nat, k: u64) {
    forall t | 0 <= t < |s.threads| && t != w :: !Mutates(s.threads[t].prog, k)
  }

  ghost predicate Absent(s: State, k: u64) {
    && k !in s.m
    && forall t | 0 <= t < |s.threads| :: !Mutates(s.threads[t].prog, k) && Delivered(s.threads[t], k).None?
  }

  /** Only thread u is at work on k, and only on an insert of count:0. */
  ghost predicate PreparingAt(run: seq<State>, i: nat, u: nat, k: u64) {
    && i < |run| && u < |run[i].threads| && OnlyWriter(run[i], u, k)
    && var p := run[i].threads[u].prog;
       Mutates(p, k) ==> (p.InsertLook? || p.InsertAdd?) && p.value == HotValue(0)
  }

  ghost predicate Prepared(run: seq<State>, u: nat, f: nat, k: u64) {
    && f < |run| && Absent(run[0], k)
    && (forall i: nat | i <= f :: PreparingAt(run, i, u, k))
    && u < |run[0].threads| && run[0].threads[u].prog != Replied(InsertDone(k))
    && u < |run[f].threads| && run[f].threads[u].prog == Replied(InsertDone(k))
  }

  ghost predicate SoleWriter(run: seq<State>, f: nat, w: nat, k: u64, sent: seq<nat>) {
    && f < |run| == |sent| && sent[f] == 0
    && (forall i: nat | f <= i < |run| :: WriterAt(run, i, w, k))
    && forall i: nat | f < i < |run| :: CountedAt(run, i, w, k, sent)
  }

  ghost predicate WriterAt(run: seq<State>, i: nat, w: nat, k: u64) {
    i < |run| && OnlyWriter(run[i], w, k)
  }

  ghost predicate CountedAt(run: seq<State>, i: nat, w: nat, k: u64, sent: seq<nat>) {
    0 < i < |run| == |sent| && WriterMove(run[i - 1], run[i], w, k, sent[i - 1], sent[i])
  }

  ghost predicate WriterMove(s: State, s': State, w: nat, k: u64, n: nat, n': nat) {
    if w < |s.threads| == |s'.threads| && s.threads[w].prog.Ready? && !s'.threads[w].prog.Ready? then
      s'.threads[w].prog == UpdateLook(k, HotValue(n)) && n' == n + 1
    else
      n' == n
  }

  // ---- up to the reply to the insert ----

  /** k is absent or holds count:0, nobody holds another answer about it, and once the insert has
      succeeded k is there. */
  ghost predicate ColdState(s: State, u: nat, k: u64) {
    && (k in s.m ==> s.m[k] == HotValue(0))
    && (forall t | 0 <= t < |s.threads| :: ColdThread(s.threads[t], k))
    && (u < |s.threads| && Inserted(s.threads[u], k) ==> k in s.m)
  }

  predicate ColdThread(th: Thread, k: u64) {
    Delivered(th, k).Some? ==> Delivered(th, k).value == HotValue(0)
  }

  predicate Inserted(th: Thread, k: u64) {
    (th.prog.InsertAdd? && th.prog.key == k && th.pc == Return(Ok)) || th.prog == Replied(InsertDone(k))
  }

  /** A thread that runs no mutation of k leaves k alone. */
  lemma Untouched(g: Geometry, s: State, s': State, t: nat, k: u64)
    requires Step(g, s, s', t) && !Mutates(s.threads[t].prog, k)
    ensures k in s'.m <==> k in s.m
    ensures k in s.m ==> s'.m[k] == s.m[k]
  {
  }

  /** A value newly on its way is the one stored; otherwise it was on its way already. */
  lemma FreshDelivery(g: Geometry, s: State, s': State, r: nat, k: u64)
    requires Step(g, s, s', r) && Delivered(s'.threads[r], k).Some?
    ensures Delivered(s'.threads[r], k) == Delivered(s.threads[r], k)
            || (k in s.m && Delivered(s'.threads[r], k) == Some(s.m[k]))
  {
  }

  lemma InserterStep(g: Geometry, s: State, s': State, u: nat, k: u64)
    requires Step(g, s, s', u) && ColdState(s, u, k)
    requires var p := s.threads[u].prog; Mutates(p, k) ==> (p.InsertLook? || p.InsertAdd?) && p.value == HotValue(0)
    ensures k in s'.m ==> s'.m[k] == HotValue(0)
    ensures Inserted(s'.threads[u], k) ==> k in s'.m
  {
    if !Mutates(s.threads[u].prog, k) { Untouched(g, s, s', u, k); }
  }

  lemma ColdMoves(g: Geometry, run: seq<State>, i: nat, u: nat, k: u64)
    requires NextAt(g, run, i) && ColdState(run[i], u, k) && PreparingAt(run, i, u, k)
    ensures ColdState(run[i + 1], u, k)
  {
    var s, s' := run[i], run[i + 1];
    if s' != s {
      var t: nat :| Step(g, s, s', t);
      if t == u { InserterStep(g, s, s', u, k); } else { Untouched(g, s, s', t, k); }
      forall r | 0 <= r < |s'.threads| ensures ColdThread(s'.threads[r], k) {
        assert ColdThread(s.threads[r], k);
        if r == t && Delivered(s'.threads[r], k).Some? { FreshDelivery(g, s, s', r, k); }
      }
    }
  }

  lemma {:induction false} ColdRun(g: Geometry, run: seq<State>, u: nat, f: nat, k: u64, i: nat)
    requires Run(g, run) && Prepared(run, u, f, k) && i <= f
    ensures ColdState(run[i], u, k)
  {
    if i > 0 {
      ColdRun(g, run, u, f, k, i - 1);
      assert NextAt(g, run, i - 1) && PreparingAt(run, i - 1, u, k);
      ColdMoves(g, run, i - 1, u, k);
    }
  }

  // ---- after it ----

  /** What holds in every state: the hot key holds count:c for a number c already sent (or the
      initial 0), and the writer's request in flight carries the last number sent. */
  ghost predicate HotState(s: State, w: nat, k: u64, sent: nat, c: nat) {
    && k in s.m && s.m[k] == HotValue(c) && (c < sent || c == 0)
    && (w < |s.threads| ==> InFlight(s.threads[w].prog, k, sent))
  }

  ghost predicate InFlight(p: Prog, k: u64, sent: nat) {
    Mutates(p, k) ==> (p.UpdateLook? || p.UpdateAdd?) && sent > 0 && p.value == HotValue(sent - 1)
  }

  lemma {:induction false} WriterStep(g: Geometry, s: State, s': State, w: nat, k: u64, n: nat, n': nat, c: nat)
      returns (c': nat)
    requires Step(g, s, s', w) && HotState(s, w, k, n, c) && WriterMove(s, s', w, k, n, n')
    ensures HotState(s', w, k, n', c') && c <= c'
  {
    c' := if s'.m[k] == s.m[k] then c else n - 1;
  }

  lemma HotMoves(g: Geometry, s: State, s': State, w: nat, k: u64, n: nat, n': nat, c: nat) returns (c': nat)
    requires Next(g, s, s') && HotState(s, w, k, n, c) && WriterMove(s, s', w, k, n, n')
    requires OnlyWriter(s, w, k)
    ensures HotState(s', w, k, n', c') && c <= c'
  {
    c' := c;
    if s' != s {
      var t: nat :| Step(g, s, s', t);
      if t != w {
        Untouched(g, s, s', t, k);
      } else {
        c' := WriterStep(g, s, s', w, k, n, n', c);
      }
    }
  }

  ghost predicate Between(v: CText, low: nat, high: nat) {
    exists n: nat :: low <= n <= high && v == HotValue(n)
  }

  /** What reader r holds, if anything, is a number from low to high. */
  ghost predicate ReaderAt(s: State, r: nat, k: u64, low: nat, high: nat) {
    r < |s.threads| && Delivered(s.threads[r], k).Some? ==> Between(Delivered(s.threads[r], k).value, low, high)
  }

  lemma ReaderStep(g: Geometry, s: State, s': State, r: nat, k: u64, low: nat, c: nat, c': nat)
    requires Next(g, s, s') && ReaderAt(s, r, k, low, c) && low <= c <= c'
    requires k in s.m ==> s.m[k] == HotValue(c)
    ensures ReaderAt(s', r, k, low, c')
  {
    if r < |s'.threads| {
      OwnStep(g, s, s', r);
      if s'.threads[r] != s.threads[r] && Delivered(s'.threads[r], k).Some? {
        FreshDelivery(g, s, s', r, k);
      }
    }
  }

  /** The stored number never decreases along the run, and a reader stays between what was stored
      when its bound was taken and what is stored now. */
  lemma {:induction false} ReaderRun(g: Geometry, run: seq<State>, f: nat, w: nat, k: u64, sent: seq<nat>, r: nat,
                                     i: nat, j: nat, low: nat, c: nat) returns (c': nat)
    requires Run(g, run) && SoleWriter(run, f, w, k, sent) && f <= i <= j < |run|
    requires HotState(run[i], w, k, sent[i], c) && ReaderAt(run[i], r, k, low, c) && low <= c
    ensures HotState(run[j], w, k, sent[j], c') && ReaderAt(run[j], r, k, low, c') && c <= c'
  {
    c' := c;
    if i < j {
      var m := ReaderRun(g, run, f, w, k, sent, r, i, j - 1, low, c);
      assert NextAt(g, run, j - 1) && CountedAt(run, j, w, k, sent) && WriterAt(run, j - 1, w, k);
      c' := HotMoves(g, run[j - 1], run[j], w, k, sent[j - 1], sent[j], m);
      ReaderStep(g, run[j - 1], run[j], r, k, low, m, c');
    }
  }

  /** A reply is a number in the reader's bounds. */
  lemma {:induction false} ReplyNumber(s: State, r: nat, k: u64, low: nat, high: nat, v: CText) returns (n: nat)
    requires ReaderAt(s, r, k, low, high) && r < |s.threads| && s.threads[r].prog == Replied(GotValue(k, v))
    ensures v == HotValue(n) && low <= n <= high
  {
    assert Delivered(s.threads[r], k) == Some(v);
    n :| low <= n <= high && v == HotValue(n);
  }

  /** When the insert has succeeded the key is hot, and no reader holds anything but count:0. */
  lemma StartsHot(g: Geometry, run: seq<State>, u: nat, f: nat, w: nat, k: u64, sent: seq<nat>)
    requires Scenario(g, run, u, f, w, k, sent)
    ensures HotState(run[f], w, k, 0, 0)
    ensures forall r: nat :: ReaderAt(run[f], r, k, 0, 0)
  {
    ColdRun(g, run, u, f, k, f);
    assert PreparingAt(run, f, u, k);
    assert Inserted(run[f].threads[u], k);
    forall r: nat ensures ReaderAt(run[f], r, k, 0, 0) {
      if r < |run[f].threads| { assert ColdThread(run[f].threads[r], k); }
    }
  }

  /** Every reply after the insert carries a number really written, and check_value decodes it from
      the daemon's text. */
  lemma {:induction false} RepliesWereWritten(g: Geometry, run: seq<State>, u: nat, f: nat, w: nat, k: u64,
                                              sent: seq<nat>, r: nat, j: nat, v: CText) returns (n: nat)
    requires Scenario(g, run, u, f, w, k, sent) && f <= j < |run| && r < |run[j].threads|
    requires run[j].threads[r].prog == Replied(GotValue(k, v))
    ensures v == HotValue(n) && (n == 0 || n < sent[j])
    ensures CheckedValue(GetResponse(k, v)) == Some(n)
  {
    StartsHot(g, run, u, f, w, k, sent);
    var c := ReaderRun(g, run, f, w, k, sent, r, f, j, 0, 0);
    n := ReplyNumber(run[j], r, k, 0, c, v);
    ReplyCodec(k, n);
  }

  /** A reader's numbers never decrease; nor do those of a reader that has no answer yet when
      another reader has its reply. */
  lemma {:induction false} RepliesDoNotDecrease(g: Geometry, run: seq<State>, u: nat, f: nat, w: nat, k: u64,
                                                sent: seq<nat>, r1: nat, i: nat, v1: CText, r2: nat, j: nat, v2: CText)
      returns (n1: nat, n2: nat)
    requires Scenario(g, run, u, f, w, k, sent) && f <= i <= j < |run|
    requires r1 < |run[i].threads| && run[i].threads[r1].prog == Replied(GotValue(k, v1))
    requires r2 < |run[j].threads| && run[j].threads[r2].prog == Replied(GotValue(k, v2))
    requires r2 == r1 || (r2 < |run[i].threads| && Delivered(run[i].threads[r2], k).None?)
    ensures v1 == HotValue(n1) && (n1 == 0 || n1 < sent[i])
    ensures v2 == HotValue(n2) && (n2 == 0 || n2 < sent[j])
    ensures n1 <= n2
  {
    StartsHot(g, run, u, f, w, k, sent);
    var c := ReaderRun(g, run, f, w, k, sent, r1, f, i, 0, 0);
    n1 := ReplyNumber(run[i], r1, k, 0, c, v1);
    assert ReaderAt(run[i], r2, k, n1, c) by {
      if r2 == r1 { assert Delivered(run[i].threads[r1], k) == Some(v1); }
    }
    var c' := ReaderRun(g, run, f, w, k, sent, r2, i, j, n1, c);
    n2 := ReplyNumber(run[j], r2, k, n1, c', v2);
  }

  /** Every get sent once the insert has succeeded is answered with a number that was written before:
      no read is empty or bad. */
  lemma {:induction false} GetsAreHits(g: Geometry, run: seq<State>, u: nat, f: nat, w: nat, k: u64, sent: seq<nat>,
                                       r: nat, i: nat, j: nat, reply: Reply) returns (n: nat)
    requires Scenario(g, run, u, f, w, k, sent) && f <= i
    requires Replies.Serving(run, r, i, j, GetKey(k), reply)
    requires forall y: nat | y < |sent| :: sent[y] <= TWO_64
    ensures reply == GotValue(k, HotValue(n)) && (n == 0 || exists y: nat :: f <= y < j && n < sent[y])
    ensures CheckedValue(GetResponse(k, HotValue(n))) == Some(n)
  {
    var a := Replies.GetServed(g, run, r, i, j, k, reply);
    StartsHot(g, run, u, f, w, k, sent);
    n := ReaderRun(g, run, f, w, k, sent, r, f, a, 0, 0);
    assert n < TWO_64;
    CounterFits(n);
    ReplyCodec(k, n);
  }

  /** Every get sent after state f is answered by a text in which check_value finds a number. */
  ghost predicate EveryGetHits(run: seq<State>, f: nat, k: u64) {
    forall r: nat, i: nat, j: nat, reply: Reply | f <= i && Replies.Serving(run, r, i, j, GetKey(k), reply) ::
      reply.GotValue? && reply.key == k && CheckedValue(GetResponse(k, reply.value)).Some?
  }

  lemma {:induction false} NoBadRead(g: Geometry, run: seq<State>, u: nat, f: nat, w: nat, k: u64, sent: seq<nat>)
    requires Scenario(g, run, u, f, w, k, sent) && forall y: nat | y < |sent| :: sent[y] <= TWO_64
    ensures EveryGetHits(run, f, k)
  {
    forall r: nat, i: nat, j: nat, reply: Reply | f <= i && Replies.Serving(run, r, i, j, GetKey(k), reply)
      ensures reply.GotValue? && reply.key == k && CheckedValue(GetResponse(k, reply.value)).Some?
    {
      var n := GetsAreHits(g, run, u, f, w, k, sent, r, i, j, reply);
    }
  }

  lemma TailIsRun(g: Geometry, run: seq<Machine.State>, from: nat)
    requires Machine.Run(g, run) && from < |run|
    ensures Run(g, ViewRun(run)[from..])
  {
    Refinement.RunRefines(g, run);
    var v := ViewRun(run);
    forall i: nat | i + 1 < |v[from..]| ensures NextAt(g, v[from..], i) {
      assert NextAt(g, v, from + i);
    }
  }

  /** The benchmark on the node-by-node machine, from the text of its commands to what it decodes
      from the answers; tail is the machine's view from a state in which the key is
      absent and nobody is at work on it. */
  lemma {:induction false} HotKeyEndToEnd(g: Geometry, run: seq<Machine.State>, from: nat, tail: seq<State>,
                                          u: nat, f: nat, w: nat, k: u64, sent: seq<nat>,
                                          r1: nat, i: nat, v1: CText, r2: nat, j: nat, v2: CText)
      returns (n1: nat, n2: nat)
    requires Machine.Run(g, run) && from < |run| && tail == ViewRun(run)[from..]
    requires HotKeyRun(tail, u, f, w, k, sent) && f <= i <= j < |tail|
    requires r1 < |tail[i].threads| && tail[i].threads[r1].prog == Replied(GotValue(k, v1))
    requires r2 < |tail[j].threads| && tail[j].threads[r2].prog == Replied(GotValue(k, v2))
    requires r2 == r1 || (r2 < |tail[i].threads| && Delivered(tail[i].threads[r2], k).None?)
    ensures LinesBegin(k)
    ensures (forall y: nat | y < |sent| :: sent[y] <= TWO_64) ==> EveryGetHits(tail, f, k)
    ensures CheckedValue(GetResponse(k, v1)) == Some(n1) && (n1 == 0 || n1 < sent[i])
    ensures CheckedValue(GetResponse(k, v2)) == Some(n2) && (n2 == 0 || n2 < sent[j])
    ensures n1 <= n2
  {
    LinesArrive(k);
    TailIsRun(g, run, from);
    if forall y: nat | y < |sent| :: sent[y] <= TWO_64 { NoBadRead(g, tail, u, f, w, k, sent); }
    n1, n2 := RepliesDoNotDecrease(g, tail, u, f, w, k, sent, r1, i, v1, r2, j, v2);
    ReplyCodec(k, n1);
    ReplyCodec(k, n2);
  }
}
