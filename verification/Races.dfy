/** Insert and update are two critical sections, a lookup and an add. What their success
    still means when other threads act in between. */
module Races {
  import opened KvTypes
  import opened Chains
  import opened Requests
  import opened AtomicStore
  import Machine
  import Refinement
  import opened Scans

  // ---- events of a run ----

  /** At step c thread u's operation on op takes effect. */
  ghost predicate Acts(g: Geometry, run: seq<State>, c: nat, u: nat, op: Op) {
    && c + 1 < |run| && u < |run[c].threads| == |run[c + 1].threads|
    && Step(g, run[c], run[c + 1], u) && OpStep(run[c], run[c + 1], u)
    && OpOf(run[c].threads[u].prog) == Some(op)
  }

  function ResultAt(run: seq<State>, c: nat, u: nat): Result
    requires c + 1 < |run| && u < |run[c + 1].threads| && run[c + 1].threads[u].pc.Return?
  {
    run[c + 1].threads[u].pc.res
  }

  ghost predicate PutsBy(g: Geometry, run: seq<State>, c: nat, u: nat, k: u64, v: CText) {
    Acts(g, run, c, u, Add(k, v)) && ResultAt(run, c, u) == Ok
  }

  /** Some thread stores k at step c. */
  ghost predicate Puts(g: Geometry, run: seq<State>, c: nat, k: u64) {
    exists u: nat, v: CText :: PutsBy(g, run, c, u, k, v)
  }

  ghost predicate RemovesBy(g: Geometry, run: seq<State>, c: nat, u: nat, k: u64) {
    Acts(g, run, c, u, Remove(k)) && ResultAt(run, c, u) == Ok
  }

  /** Some thread removes k at step c. */
  ghost predicate Removes(g: Geometry, run: seq<State>, c: nat, k: u64) {
    exists u: nat :: RemovesBy(g, run, c, u, k)
  }

  // ---- presence of a key is decided by the last successful add or remove of it ----

  lemma PresenceStep(g: Geometry, run: seq<State>, c: nat, k: u64)
    requires Run(g, run) && 0 < c < |run|
    ensures k in run[c].m <==> Puts(g, run, c - 1, k) || (k in run[c - 1].m && !Removes(g, run, c - 1, k))
  {
    var d: nat := c - 1;
    assert NextAt(g, run, d);
    if run[d].m == run[c].m {
      forall u: nat | RemovesBy(g, run, d, u, k) ensures k !in run[c].m {}
      forall u: nat, v: CText | PutsBy(g, run, d, u, k, v) ensures k in run[c].m {}
    } else {
      var t: nat :| Step(g, run[d], run[c], t);
      var op := OpOf(run[d].threads[t].prog).value;
      assert Acts(g, run, d, t, op);
      if op.Add? { assert PutsBy(g, run, d, t, op.key, op.value); }
      if op.Remove? { assert RemovesBy(g, run, d, t, op.key); }
      forall u: nat, x: Op | Acts(g, run, d, u, x) ensures u == t && x == op {}
    }
  }

  /** k was stored at some step from a to b, and not removed after that. */
  ghost predicate PutLast(g: Geometry, run: seq<State>, a: nat, b: nat, k: u64) {
    exists c: nat :: a <= c < b && Puts(g, run, c, k) && NoRemove(g, run, c + 1, b, k)
  }

  ghost predicate NoRemove(g: Geometry, run: seq<State>, a: nat, b: nat, k: u64) {
    forall d: nat | a <= d < b :: !Removes(g, run, d, k)
  }

  lemma RemoveSplits(g: Geometry, run: seq<State>, a: nat, b: nat, k: u64)
    requires a < b
    ensures NoRemove(g, run, a, b, k) <==> NoRemove(g, run, a, b - 1, k) && !Removes(g, run, b - 1, k)
  {
  }

  lemma PutSplits(g: Geometry, run: seq<State>, a: nat, b: nat, k: u64)
    requires a < b
    ensures PutLast(g, run, a, b, k) <==>
            Puts(g, run, b - 1, k) || (PutLast(g, run, a, b - 1, k) && !Removes(g, run, b - 1, k))
  {
    forall c: nat | c < b
      ensures NoRemove(g, run, c, b, k) <==> NoRemove(g, run, c, b - 1, k) && !Removes(g, run, b - 1, k)
    {
      RemoveSplits(g, run, c, b, k);
    }
    assert NoRemove(g, run, b - 1 + 1, b, k);
    if PutLast(g, run, a, b - 1, k) && !Removes(g, run, b - 1, k) {
      var c: nat :| a <= c < b - 1 && Puts(g, run, c, k) && NoRemove(g, run, c + 1, b - 1, k);
      assert NoRemove(g, run, c + 1, b, k);
    }
  }

  lemma {:induction false} Presence(g: Geometry, run: seq<State>, a: nat, b: nat, k: u64)
    requires Run(g, run) && a <= b < |run|
    ensures k in run[b].m <==> PutLast(g, run, a, b, k) || (k in run[a].m && NoRemove(g, run, a, b, k))
  {
    if a < b {
      Presence(g, run, a, b - 1, k);
      PresenceStep(g, run, b, k);
      PutSplits(g, run, a, b, k);
      RemoveSplits(g, run, a, b, k);
    }
  }

  // ---- the two critical sections of a handler ----

  function LookProg(insert: bool, k: u64, v: CText): Prog {
    if insert then InsertLook(k, v) else UpdateLook(k, v)
  }

  function AddProg(insert: bool, k: u64, v: CText): Prog {
    if insert then InsertAdd(k, v) else UpdateAdd(k, v)
  }

  function DoneReply(insert: bool, k: u64): Reply {
    if insert then InsertDone(k) else UpdateDone(k)
  }

  /** At step a the handler's lookup answered in the way that lets it go on to the add:
      insert saw no readable value under k, update saw one. */
  ghost predicate LooksBy(g: Geometry, run: seq<State>, a: nat, t: nat, insert: bool, k: u64, v: CText) {
    && Acts(g, run, a, t, Lookup(k, MAX_VALUE_LEN))
    && run[a].threads[t].prog == LookProg(insert, k, v)
    && (ResultAt(run, a, t).Found? <==> !insert)
  }

  predicate AfterLook(th: Thread, insert: bool, k: u64, v: CText) {
    || (th.prog == LookProg(insert, k, v) && th.pc.Return? && (th.pc.res.Found? <==> !insert))
    || (th.prog == AddProg(insert, k, v) && (th.pc.Idle? || th.pc.Pending?))
  }

  predicate AfterAdd(th: Thread, insert: bool, k: u64) {
    || ((if insert then th.prog.InsertAdd? else th.prog.UpdateAdd?) && th.prog.key == k && th.pc == Return(Ok))
    || th.prog == Replied(DoneReply(insert, k))
  }

  /** After step a and up to state j thread t is on the way from that lookup to its add. */
  ghost predicate LookedSince(run: seq<State>, a: nat, j: nat, t: nat, insert: bool, k: u64, v: CText) {
    j < |run| && forall y: nat | a < y <= j :: t < |run[y].threads| && AfterLook(run[y].threads[t], insert, k, v)
  }

  /** After step b and up to state j thread t is on the way from that add to its reply. */
  ghost predicate AddedSince(run: seq<State>, b: nat, j: nat, t: nat, insert: bool, k: u64) {
    j < |run| && forall y: nat | b < y <= j :: t < |run[y].threads| && AfterAdd(run[y].threads[t], insert, k)
  }

  lemma {:induction false} FindLook(g: Geometry, run: seq<State>, j: nat, t: nat, insert: bool, k: u64, v: CText)
      returns (a: nat)
    requires Run(g, run) && Init(run[0]) && j < |run| && t < |run[j].threads|
    requires AfterLook(run[j].threads[t], insert, k, v)
    ensures a < j && LooksBy(g, run, a, t, insert, k, v) && LookedSince(run, a, j, t, insert, k, v)
  {
    assert j > 0;
    assert NextAt(g, run, j - 1);
    OwnStep(g, run[j - 1], run[j], t);
    if AfterLook(run[j - 1].threads[t], insert, k, v) {
      a := FindLook(g, run, j - 1, t, insert, k, v);
    } else {
      a := j - 1;
    }
  }

  lemma {:induction false} FindPut(g: Geometry, run: seq<State>, j: nat, t: nat, insert: bool, k: u64)
      returns (b: nat, v: CText)
    requires Run(g, run) && Init(run[0]) && j < |run| && t < |run[j].threads|
    requires AfterAdd(run[j].threads[t], insert, k)
    ensures b < j && PutsBy(g, run, b, t, k, v) && run[b].threads[t].prog == AddProg(insert, k, v)
    ensures AddedSince(run, b, j, t, insert, k)
  {
    assert j > 0;
    assert NextAt(g, run, j - 1);
    OwnStep(g, run[j - 1], run[j], t);
    if AfterAdd(run[j - 1].threads[t], insert, k) {
      b, v := FindPut(g, run, j - 1, t, insert, k);
    } else {
      b, v := j - 1, run[j - 1].threads[t].prog.value;
    }
  }

  /** The insert or update that has replied at j is a lookup at step a and a put at a later step b.
      Whether k was there when the put happened is settled by what came between:
      a successful insert replaced a value exactly when the last add or remove of k since
      its lookup was an add; a successful update created the key anew exactly when
      it was removed since the lookup and not stored again. */
  lemma TwoSections(g: Geometry, run: seq<State>, j: nat, t: nat, insert: bool, k: u64)
      returns (a: nat, b: nat, v: CText)
    requires Run(g, run) && Init(run[0]) && j < |run| && t < |run[j].threads|
    requires run[j].threads[t].prog == Replied(DoneReply(insert, k))
    ensures a < b < j && LooksBy(g, run, a, t, insert, k, v) && PutsBy(g, run, b, t, k, v)
    ensures LookedSince(run, a, b, t, insert, k, v) && AddedSince(run, b, j, t, insert, k)
    ensures run[b + 1].m == run[b].m[k := v]
    ensures insert ==> k !in run[a].m || |run[a].m[k]| >= MAX_VALUE_LEN
    ensures !insert ==> k in run[a].m
    ensures k in run[b].m <==> PutLast(g, run, a, b, k) || (k in run[a].m && NoRemove(g, run, a, b, k))
    ensures insert && k !in run[a].m ==> (k in run[b].m <==> PutLast(g, run, a, b, k))
    ensures !insert ==> (k !in run[b].m <==> !PutLast(g, run, a, b, k) && !NoRemove(g, run, a, b, k))
  {
    b, v := FindPut(g, run, j, t, insert, k);
    a := FindLook(g, run, b, t, insert, k, v);
    Presence(g, run, a, b, k);
  }

  /** Insert-if-absent: when no other add of k lands between the two sections of the insert that
      has replied at j, and it observed the key absent, it stored a key that was not there. */
  lemma InsertAloneIsInsertIfAbsent(g: Geometry, run: seq<Machine.State>, j: nat, t: nat, k: u64)
      returns (a: nat, b: nat, v: CText)
    requires Machine.Run(g, run) && j < |run| && t < |run[j].threads|
    requires run[j].threads[t].prog == Replied(InsertDone(k))
    ensures a < b < j && Stored(run[b + 1]) == Stored(run[b])[k := v]
    ensures LooksBy(g, ViewRun(run), a, t, true, k, v) && PutsBy(g, ViewRun(run), b, t, k, v)
    ensures LookedSince(ViewRun(run), a, b, t, true, k, v) && AddedSince(ViewRun(run), b, j, t, true, k)
    ensures k !in Stored(run[a]) || |Stored(run[a])[k]| >= MAX_VALUE_LEN
    ensures k !in Stored(run[a]) && (forall c: nat | a <= c < b :: !Puts(g, ViewRun(run), c, k))
            ==> k !in Stored(run[b])
  {
    Refinement.RunRefines(g, run);
    var r := ViewRun(run);
    assert r[j].threads[t].prog == Replied(DoneReply(true, k));
    a, b, v := TwoSections(g, r, j, t, true, k);
    assert r[a].m == Stored(run[a]) && r[b].m == Stored(run[b]) && r[b + 1].m == Stored(run[b + 1]);
  }
}
