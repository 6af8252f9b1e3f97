/** What kv_hash_count and kv_hash_snapshot promise while other threads mutate the table:
    they visit the buckets one after another, so they see no single state, yet what they
    report is bounded by what was present throughout and what was present at some time. */
module Scans {
  import opened KvTypes
  import opened Chains
  import opened Requests
  import opened AtomicStore
  import ChainMemory
  import Machine
  import Refinement

  /** k is stored in every state from i to j. */
  ghost predicate Throughout(run: seq<State>, i: nat, j: nat, k: u64) {
    forall y | i <= y <= j && y < |run| :: k in run[y].m
  }

  /** The pair k, v (cut to a record's field) was in the table in some state from i to j. */
  ghost predicate PairSeen(run: seq<State>, i: nat, j: nat, e: Entry) {
    exists y :: i <= y <= j && y < |run| && e.key in run[y].m && e.value == Clip(run[y].m[e.key])
  }

  ghost predicate AllSeen(run: seq<State>, i: nat, j: nat, out: seq<Entry>) {
    forall n | 0 <= n < |out| :: PairSeen(run, i, j, out[n])
  }

  /** Thread t is inside one scan in every state from i to j, and the scan began at i. */
  ghost predicate Scanning(run: seq<State>, t: nat, i: nat, j: nat, start: Acc) {
    && i <= j < |run|
    && (forall y | i <= y <= j :: t < |run[y].threads| && run[y].threads[t].pc.Scan?)
    && run[i].threads[t].pc == Scan(0, start)
  }

  /** A step leaves thread t alone or is a step of t. */
  lemma OwnStep(g: Geometry, s: State, s': State, t: nat)
    requires Next(g, s, s') && t < |s.threads|
    ensures |s'.threads| == |s.threads|
    ensures s'.threads[t] == s.threads[t] || Step(g, s, s', t)
  {
    if s' != s {
      var u: nat :| Step(g, s, s', u);
    }
  }

  // ---- the visits of one scan ----

  /** Buckets 0, 1, ... were visited one after another between states i and j: bucket b in state
      vs[b], where es[b] listed exactly what it held. */
  ghost predicate Visits(g: Geometry, run: seq<State>, i: nat, j: nat, vs: seq<nat>, es: seq<Chain>) {
    && |vs| == |es| <= g.n
    && (forall b | 0 <= b < |vs| ::
          i <= vs[b] <= j && vs[b] < |run| && ChainMemory.Enumerates(g, run[vs[b]].m, b, es[b]))
    && forall a, b | 0 <= a < b < |vs| :: vs[a] < vs[b]
  }

  lemma MoreVisits(g: Geometry, run: seq<State>, i: nat, j: nat, vs: seq<nat>, es: seq<Chain>, e: Chain)
    requires Visits(g, run, i, j, vs, es) && |vs| < g.n && i <= j < |run|
    requires forall b | 0 <= b < |vs| :: vs[b] < j
    requires ChainMemory.Enumerates(g, run[j].m, |vs|, e)
    ensures Visits(g, run, i, j, vs + [j], es + [e])
    ensures Flatten(es + [e]) == Flatten(es) + e
  {
    assert (es + [e])[..|es|] == es;
  }

  lemma AbsorbAppend(a: Acc, x: Chain, y: Chain)
    ensures Absorb(Absorb(a, x), y) == Absorb(a, x + y)
  {
    if a.Copies? { assert a.out + ClipAll(x) + ClipAll(y) == a.out + ClipAll(x + y); }
  }

  /** What a scan has absorbed is what its visits saw. */
  ghost predicate Absorbed(g: Geometry, run: seq<State>, t: nat, i: nat, j: nat, start: Acc,
                           vs: seq<nat>, es: seq<Chain>)
    requires j < |run| && t < |run[j].threads| && run[j].threads[t].pc.Scan?
  {
    var pc := run[j].threads[t].pc;
    && Visits(g, run, i, j, vs, es) && (forall b | 0 <= b < |vs| :: vs[b] < j)
    && |vs| == pc.b && pc.acc == Absorb(start, Flatten(es))
    && (pc.acc.Copies? ==> |pc.acc.out| <= pc.acc.max)
  }

  predicate Empty(a: Acc) {
    a == Tally(0) || (a.Copies? && a.out == [])
  }

  lemma AbsorbedNext(g: Geometry, run: seq<State>, t: nat, i: nat, j: nat, start: Acc,
                     vs: seq<nat>, es: seq<Chain>, e: Chain)
    requires j + 1 < |run| && i <= j && t < |run[j].threads| == |run[j + 1].threads|
    requires run[j].threads[t].pc.Scan? && run[j + 1].threads[t].pc.Scan?
    requires Absorbed(g, run, t, i, j, start, vs, es) && VisitStep(g, run[j], run[j + 1], t, e)
    ensures Absorbed(g, run, t, i, j + 1, start, vs + [j], es + [e])
  {
    MoreVisits(g, run, i, j, vs, es, e);
    AbsorbAppend(start, Flatten(es), e);
  }

  lemma VisitsNext(g: Geometry, run: seq<State>, t: nat, i: nat, j: nat, start: Acc, vs: seq<nat>, es: seq<Chain>)
      returns (vs': seq<nat>, es': seq<Chain>)
    requires j + 1 < |run| && i <= j && Next(g, run[j], run[j + 1])
    requires t < |run[j].threads| && t < |run[j + 1].threads|
    requires run[j].threads[t].pc.Scan? && run[j + 1].threads[t].pc.Scan?
    requires Absorbed(g, run, t, i, j, start, vs, es)
    ensures Absorbed(g, run, t, i, j + 1, start, vs', es')
  {
    OwnStep(g, run[j], run[j + 1], t);
    if run[j + 1].threads[t] == run[j].threads[t] {
      vs', es' := vs, es;
    } else {
      var e: Chain :| VisitStep(g, run[j], run[j + 1], t, e);
      AbsorbedNext(g, run, t, i, j, start, vs, es, e);
      vs', es' := vs + [j], es + [e];
    }
  }

  lemma {:induction false} VisitedSoFar(g: Geometry, run: seq<State>, t: nat, i: nat, j: nat, start: Acc)
      returns (vs: seq<nat>, es: seq<Chain>)
    requires Run(g, run) && Scanning(run, t, i, j, start) && Empty(start)
    ensures Absorbed(g, run, t, i, j, start, vs, es)
  {
    if i == j {
      vs, es := [], [];
    } else {
      vs, es := VisitedSoFar(g, run, t, i, j - 1, start);
      assert NextAt(g, run, j - 1);
      vs, es := VisitsNext(g, run, t, i, j - 1, start, vs, es);
    }
  }

  /** The count is the number of entries seen, each bucket in one state and one after another. */
  lemma CountVisits(g: Geometry, run: seq<State>, t: nat, i: nat, j: nat, n: nat)
      returns (vs: seq<nat>, es: seq<Chain>)
    requires Run(g, run) && j + 1 < |run| && Scanning(run, t, i, j, Tally(0))
    requires t < |run[j + 1].threads| && run[j + 1].threads[t].pc == Return(Counted(n))
    ensures Visits(g, run, i, j, vs, es) && |es| == g.n && n == |Flatten(es)|
  {
    vs, es := VisitedSoFar(g, run, t, i, j, Tally(0));
    assert NextAt(g, run, j);
    OwnStep(g, run[j], run[j + 1], t);
  }

  /** out is the first max entries of what the visits saw; the scan stops early only when
      the buffer is too small. */
  ghost predicate CutOf(g: Geometry, es: seq<Chain>, max: nat, out: seq<Entry>) {
    out == First(ClipAll(Flatten(es)), max) && (|Flatten(es)| <= max ==> |es| == g.n)
  }

  /** The scan that is cut short in bucket |vs|. */
  lemma CutVisit(g: Geometry, run: seq<State>, t: nat, i: nat, j: nat, max: nat, vs: seq<nat>, es: seq<Chain>,
                 e: Chain, out: seq<Entry>)
    requires j + 1 < |run| && i <= j && t < |run[j].threads| == |run[j + 1].threads|
    requires run[j].threads[t].pc.Scan? && Absorbed(g, run, t, i, j, Copies([], max), vs, es)
    requires VisitStep(g, run[j], run[j + 1], t, e) && run[j + 1].threads[t].pc == Return(Copied(out))
    ensures Visits(g, run, i, j, vs + [j], es + [e]) && CutOf(g, es + [e], max, out)
  {
    MoreVisits(g, run, i, j, vs, es, e);
    AbsorbAppend(Copies([], max), Flatten(es), e);
  }

  /** The copies are exactly what the visits saw, in scan order, cut at max entries. */
  lemma SnapshotVisits(g: Geometry, run: seq<State>, t: nat, i: nat, j: nat, max: nat, out: seq<Entry>)
      returns (vs: seq<nat>, es: seq<Chain>)
    requires Run(g, run) && j + 1 < |run| && Scanning(run, t, i, j, Copies([], max))
    requires t < |run[j + 1].threads| && run[j + 1].threads[t].pc == Return(Copied(out))
    ensures Visits(g, run, i, j, vs, es) && CutOf(g, es, max, out)
  {
    vs, es := VisitedSoFar(g, run, t, i, j, Copies([], max));
    assert NextAt(g, run, j);
    OwnStep(g, run[j], run[j + 1], t);
    if !FinishStep(g, run[j], run[j + 1], t) {
      var e: Chain :| VisitStep(g, run[j], run[j + 1], t, e);
      CutVisit(g, run, t, i, j, max, vs, es, e, out);
      vs, es := vs + [j], es + [e];
    }
  }

  // ---- what follows from the visits ----

  /** An entry was seen exactly when its pair was stored as its bucket was visited. */
  lemma Seen(g: Geometry, run: seq<State>, i: nat, j: nat, vs: seq<nat>, es: seq<Chain>)
    requires Visits(g, run, i, j, vs, es)
    ensures Distinct(Flatten(es))
    ensures forall k: u64, v: CText :: Entry(k, v) in Flatten(es)
              <==> g.hash(k) < |vs| && k in run[vs[g.hash(k)]].m && run[vs[g.hash(k)]].m[k] == v
  {
    forall b, n | 0 <= b < |es| && 0 <= n < |es[b]| ensures g.hash(es[b][n].key) == b {
      assert es[b][n] in es[b] && es[b][n] == Entry(es[b][n].key, es[b][n].value);
    }
    FlattenMembers(g, es);
  }

  /** The keys seen, when every bucket was visited. */
  lemma SeenKeys(g: Geometry, run: seq<State>, i: nat, j: nat, vs: seq<nat>, es: seq<Chain>)
    requires Visits(g, run, i, j, vs, es) && |es| == g.n
    ensures |Keys(Flatten(es))| == |Flatten(es)|
    ensures forall k: u64 :: k in Keys(Flatten(es)) <==> k in run[vs[g.hash(k)]].m
  {
    Seen(g, run, i, j, vs, es);
    DistinctSize(Flatten(es));
    var f := Flatten(es);
    forall k: u64 ensures k in Keys(f) <==> k in run[vs[g.hash(k)]].m {
      if k in Keys(f) {
        var n :| 0 <= n < |f| && f[n].key == k;
        assert f[n] == Entry(k, f[n].value) && f[n] in f;
      }
      if k in run[vs[g.hash(k)]].m { assert Entry(k, run[vs[g.hash(k)]].m[k]) in f; }
    }
  }

  lemma ClippedSeen(g: Geometry, run: seq<State>, i: nat, j: nat, vs: seq<nat>, es: seq<Chain>)
    requires Visits(g, run, i, j, vs, es)
    ensures Distinct(ClipAll(Flatten(es))) && AllSeen(run, i, j, ClipAll(Flatten(es)))
    ensures Keys(ClipAll(Flatten(es))) == Keys(Flatten(es))
  {
    Seen(g, run, i, j, vs, es);
    var f := Flatten(es);
    forall n | 0 <= n < |f| ensures PairSeen(run, i, j, ClipAll(f)[n]) {
      assert f[n] in f && f[n] == Entry(f[n].key, f[n].value);
    }
    forall k ensures k in Keys(f) <==> k in Keys(ClipAll(f)) {
      if k in Keys(f) { var n :| 0 <= n < |f| && f[n].key == k; assert ClipAll(f)[n].key == k; }
    }
  }

  /** What the copies of a scan are worth: distinct keys, never more than max, every pair really
      stored at some time during the scan; and exactly when the buffer had room for all that was
      seen they are all of it, so that nothing that stayed is missing. */
  lemma CutGuarantee(g: Geometry, run: seq<State>, i: nat, j: nat, vs: seq<nat>, es: seq<Chain>, max: nat,
                     out: seq<Entry>)
    requires Visits(g, run, i, j, vs, es) && CutOf(g, es, max, out)
    ensures Distinct(out) && |out| <= max && AllSeen(run, i, j, out)
    ensures Keys(out) == Keys(Flatten(es)) <==> |Flatten(es)| <= max
    ensures |Flatten(es)| <= max ==> forall k: u64 | Throughout(run, i, j, k) :: k in Keys(out)
  {
    ClippedSeen(g, run, i, j, vs, es);
    forall n | 0 <= n < |out| ensures PairSeen(run, i, j, out[n]) {
      assert out[n] == ClipAll(Flatten(es))[n];
    }
    Seen(g, run, i, j, vs, es);
    DistinctSize(out);
    DistinctSize(Flatten(es));
    if |Flatten(es)| <= max { SeenKeys(g, run, i, j, vs, es); }
  }

  // ---- when no key comes or goes ----

  ghost predicate KeysAt(run: seq<State>, y: nat, keys: set<u64>) {
    y < |run| && run[y].m.Keys == keys
  }

  /** In every state from i to j the keys are these; their values may change. */
  ghost predicate SameKeys(run: seq<State>, i: nat, j: nat, keys: set<u64>) {
    i <= j < |run| && forall y: nat | i <= y <= j :: KeysAt(run, y, keys)
  }

  lemma SeenSame(g: Geometry, run: seq<State>, i: nat, j: nat, vs: seq<nat>, es: seq<Chain>, keys: set<u64>)
    requires Visits(g, run, i, j, vs, es) && SameKeys(run, i, j, keys)
    ensures Keys(Flatten(es)) <= keys
    ensures |es| == g.n ==> Keys(Flatten(es)) == keys && |Flatten(es)| == |keys|
  {
    Seen(g, run, i, j, vs, es);
    var f := Flatten(es);
    forall k | k in Keys(f) ensures k in keys {
      var n :| 0 <= n < |f| && f[n].key == k;
      assert f[n] in f && f[n] == Entry(k, f[n].value);
      assert KeysAt(run, vs[g.hash(k)], keys);
    }
    if |es| == g.n {
      SeenKeys(g, run, i, j, vs, es);
      forall k: u64 | k in keys ensures k in Keys(f) { assert KeysAt(run, vs[g.hash(k)], keys); }
      assert Keys(f) == keys;
    }
  }

  /** Then the count is the number of keys. */
  lemma CountQuiescent(g: Geometry, run: seq<State>, t: nat, i: nat, j: nat, n: nat, keys: set<u64>)
    requires Run(g, run) && j + 1 < |run| && Scanning(run, t, i, j, Tally(0))
    requires t < |run[j + 1].threads| && run[j + 1].threads[t].pc == Return(Counted(n))
    requires SameKeys(run, i, j, keys)
    ensures n == |keys|
  {
    var vs, es := CountVisits(g, run, t, i, j, n);
    SeenSame(g, run, i, j, vs, es, keys);
  }

  /** Then a copy with room for all lists exactly the keys, each with a value it had. */
  lemma SnapshotQuiescent(g: Geometry, run: seq<State>, t: nat, i: nat, j: nat, max: nat, out: seq<Entry>,
                          keys: set<u64>)
    requires Run(g, run) && j + 1 < |run| && Scanning(run, t, i, j, Copies([], max))
    requires t < |run[j + 1].threads| && run[j + 1].threads[t].pc == Return(Copied(out))
    requires SameKeys(run, i, j, keys) && |keys| <= max
    ensures |out| == |keys| && Distinct(out) && Keys(out) == keys && AllSeen(run, i, j, out)
  {
    var vs, es := SnapshotVisits(g, run, t, i, j, max, out);
    ClippedSeen(g, run, i, j, vs, es);
    SeenSame(g, run, i, j, vs, es, keys);
    Seen(g, run, i, j, vs, es);
    DistinctSize(Flatten(es));
    SubsetSize(Keys(Flatten(es)), keys);
  }

  // ---- when no key comes ----

  ghost predicate DropsAt(run: seq<State>, y: nat) {
    y + 1 < |run| && run[y + 1].m.Keys <= run[y].m.Keys
  }

  /** From state i to state j no key appears that was not stored. */
  ghost predicate NoneAppears(run: seq<State>, i: nat, j: nat) {
    i <= j < |run| && forall y: nat | i <= y < j :: DropsAt(run, y)
  }

  lemma {:induction false} Remained(run: seq<State>, i: nat, j: nat, x: nat, y: nat)
    requires NoneAppears(run, i, j) && i <= x <= y <= j
    ensures run[y].m.Keys <= run[x].m.Keys
  {
    if x < y {
      Remained(run, i, j, x, y - 1);
      assert DropsAt(run, y - 1);
    }
  }

  /** Then a scan sees every key that is left in the end, and only keys that were there at first. */
  lemma SeenBetween(g: Geometry, run: seq<State>, i: nat, j: nat, vs: seq<nat>, es: seq<Chain>)
    requires Visits(g, run, i, j, vs, es) && NoneAppears(run, i, j)
    ensures Keys(Flatten(es)) <= run[i].m.Keys
    ensures |es| == g.n ==> run[j].m.Keys <= Keys(Flatten(es))
  {
    Seen(g, run, i, j, vs, es);
    var f := Flatten(es);
    forall k | k in Keys(f) ensures k in run[i].m {
      var n :| 0 <= n < |f| && f[n].key == k;
      assert f[n] in f && f[n] == Entry(k, f[n].value);
      Remained(run, i, j, i, vs[g.hash(k)]);
    }
    if |es| == g.n {
      SeenKeys(g, run, i, j, vs, es);
      forall k: u64 | k in run[j].m ensures k in Keys(f) { Remained(run, i, j, vs[g.hash(k)], j); }
    }
  }

  /** And a later scan sees no more than an earlier one that went through all buckets. */
  lemma SeesNoMore(g: Geometry, run: seq<State>, i: nat, d: nat, j: nat, ws: seq<nat>, fs: seq<Chain>,
                   vs: seq<nat>, es: seq<Chain>)
    requires NoneAppears(run, i, j) && d < j && |fs| == g.n
    requires Visits(g, run, i, d, ws, fs) && Visits(g, run, d + 1, j, vs, es)
    ensures |Flatten(es)| <= |Flatten(fs)|
  {
    Seen(g, run, d + 1, j, vs, es);
    SeenKeys(g, run, i, d, ws, fs);
    var f := Flatten(es);
    forall k | k in Keys(f) ensures k in Keys(Flatten(fs)) {
      var n :| 0 <= n < |f| && f[n].key == k;
      assert f[n] in f && f[n] == Entry(k, f[n].value);
      Remained(run, i, j, ws[g.hash(k)], vs[g.hash(k)]);
    }
    DistinctSize(f);
    SubsetSize(Keys(f), Keys(Flatten(fs)));
  }

  // ---- the same, of the node-by-node machine ----

  /** Thread t runs one scan from state i to state j of a concrete run. */
  ghost predicate ScanSpan(run: seq<Machine.State>, t: nat, i: nat, j: nat, start: Acc) {
    && i <= j < |run|
    && (forall y | i <= y <= j :: t < |run[y].threads| && ViewPc(run[y].threads[t].pc).Scan?)
    && run[i].threads[t].pc == Machine.ScanWait(0, start)
  }

  ghost function Stored(s: Machine.State): map<u64, CText> {
    ChainMemory.MapOf(s.heap.node)
  }

  /** Bucket b was visited in state vs[b], after the buckets before it; es[b] lists what it held. */
  ghost predicate Visited(g: Geometry, run: seq<Machine.State>, i: nat, j: nat, vs: seq<nat>, es: seq<Chain>) {
    && |vs| == |es| <= g.n
    && (forall b | 0 <= b < |vs| ::
          i <= vs[b] <= j && vs[b] < |run| && ChainMemory.Enumerates(g, Stored(run[vs[b]]), b, es[b]))
    && forall a, b | 0 <= a < b < |vs| :: vs[a] < vs[b]
  }

  lemma SpanView(g: Geometry, run: seq<Machine.State>, t: nat, i: nat, j: nat, start: Acc)
    requires Machine.Run(g, run) && ScanSpan(run, t, i, j, start)
    ensures Run(g, ViewRun(run)) && Scanning(ViewRun(run), t, i, j, start)
  {
    Refinement.RunRefines(g, run);
  }

  lemma VisitsView(g: Geometry, run: seq<Machine.State>, i: nat, j: nat, vs: seq<nat>, es: seq<Chain>)
    requires Visits(g, ViewRun(run), i, j, vs, es)
    ensures Visited(g, run, i, j, vs, es)
  {
    forall b | 0 <= b < |vs| ensures ViewRun(run)[vs[b]].m == Stored(run[vs[b]]) {}
  }

  /** kv_hash_count, for every interleaving of single-node steps: what it visited, and the bounds
      that follow. */
  lemma {:induction false} ConcreteCountSandwich(g: Geometry, run: seq<Machine.State>, t: nat, i: nat, j: nat, n: nat)
      returns (vs: seq<nat>, es: seq<Chain>, seen: set<u64>)
    requires Machine.Run(g, run) && j + 1 < |run| && ScanSpan(run, t, i, j, Tally(0))
    requires t < |run[j + 1].threads| && run[j + 1].threads[t].pc == Machine.Return(Counted(n))
    ensures Visited(g, run, i, j, vs, es) && |es| == g.n && n == |Flatten(es)|
    ensures seen == Keys(Flatten(es)) && |seen| == n
    ensures forall k: u64 | (forall y | i <= y <= j :: k in Stored(run[y])) :: k in seen
    ensures forall k | k in seen :: exists y :: i <= y <= j && k in Stored(run[y])
  {
    SpanView(g, run, t, i, j, Tally(0));
    var v := ViewRun(run);
    vs, es := CountVisits(g, v, t, i, j, n);
    VisitsView(g, run, i, j, vs, es);
    SeenKeys(g, v, i, j, vs, es);
    seen := Keys(Flatten(es));
    forall k: u64 ensures k in seen <==> k in Stored(run[vs[g.hash(k)]]) {}
  }

  /** kv_hash_snapshot, for every interleaving of single-node steps: the copies are, in scan order
      and cut at max, what the buckets held as they were visited; the buffer may fill
      in the middle of a bucket. */
  lemma ConcreteSnapshotGuarantee(g: Geometry, run: seq<Machine.State>, t: nat, i: nat, j: nat, max: nat,
                                  out: seq<Entry>) returns (vs: seq<nat>, es: seq<Chain>)
    requires Machine.Run(g, run) && j + 1 < |run| && ScanSpan(run, t, i, j, Copies([], max))
    requires t < |run[j + 1].threads|
    requires ViewPc(run[j + 1].threads[t].pc) == Return(Copied(out))
    ensures Visited(g, run, i, j, vs, es) && CutOf(g, es, max, out)
    ensures Distinct(out) && |out| <= max
    ensures |out| < max ==> forall k: u64 | (forall y | i <= y <= j :: k in Stored(run[y])) :: k in Keys(out)
  {
    SpanView(g, run, t, i, j, Copies([], max));
    var v := ViewRun(run);
    vs, es := SnapshotVisits(g, v, t, i, j, max, out);
    VisitsView(g, run, i, j, vs, es);
    CutGuarantee(g, v, i, j, vs, es, max, out);
    forall k: u64 | |out| < max && (forall y | i <= y <= j :: k in Stored(run[y])) ensures k in Keys(out) {
      forall y | i <= y <= j ensures k in v[y].m { assert k in Stored(run[y]); }
      assert Throughout(v, i, j, k);
    }
  }
}
