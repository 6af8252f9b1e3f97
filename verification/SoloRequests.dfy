/** What a request is answered when its thread runs alone: from every reachable state in which the
    thread is idle and no lock is held, in a store with any hash and any number of buckets. */
module SoloRequests {
  import opened KvTypes
  import opened Chains
  import opened Requests
  import opened Machine
  import opened Progress
  import opened Scans
  import opened Solo

  /** Thread t can start: it is idle, and no lock is held. */
  ghost predicate CanStart(g: Geometry, run: seq<State>, t: Tid) {
    && Run(g, run) && t < |Last(run).threads| && Last(run).threads[t] == Thread(Ready, Idle)
    && |Last(run).locks| == g.n && AllFree(Last(run))
  }

  // ---- requests on a key ----

  /** Insert if absent, replace if present, look up, delete. */
  function ReplyAlone(r: Request, m: map<u64, CText>): Reply
    requires r.Insert? || r.Update? || r.GetKey? || r.DeleteKey?
  {
    match r
    case Insert(k, _) => if Readable(m, k) then InsertExists(k) else InsertDone(k)
    case Update(k, _) => if Readable(m, k) then UpdateDone(k) else UpdateMissing(k)
    case GetKey(k) => if Readable(m, k) then GotValue(k, m[k]) else GetMissing(k)
    case DeleteKey(k) => if k in m then DeleteDone(k) else DeleteMissing(k)
  }

  function MapAlone(r: Request, m: map<u64, CText>): map<u64, CText> {
    match r
    case Insert(k, v) => if Readable(m, k) then m else m[k := v]
    case Update(k, v) => if Readable(m, k) then m[k := v] else m
    case DeleteKey(k) => m - {k}
    case _ => m
  }

  /** One keyed operation of a handler, up to where its result leads. */
  lemma OpAlone(g: Geometry, run: seq<State>, t: Tid) returns (longer: seq<State>, res: Result)
    requires Run(g, run) && t < |Last(run).threads| && Last(run).threads[t].pc.Idle?
    requires |Last(run).locks| == g.n && AllFree(Last(run))
    requires OpOf(Last(run).threads[t].prog).Some? && Keyed(OpOf(Last(run).threads[t].prog).value)
    ensures var p := Last(run).threads[t].prog;
            && Run(g, longer) && Grew(run, longer, t) && Completes(g, p, Last(run), Last(longer), res)
            && Moved(Last(run), Last(longer), t, Thread(Onward(p, res), Idle))
  {
    var p := Last(run).threads[t].prog;
    var done;
    done, res := KeyedAlone(g, run, t);
    longer := Local(g, done, t, Thread(Onward(p, res), Idle));
    GrewMore(run, done, longer, t);
  }

  lemma RequestAlone(g: Geometry, run: seq<State>, t: Tid, r: Request) returns (longer: seq<State>)
    requires CanStart(g, run, t) && (r.Insert? || r.Update? || r.GetKey? || r.DeleteKey?)
    ensures Run(g, longer) && Grew(run, longer, t) && Stored(Last(longer)) == MapAlone(r, Stored(Last(run)))
    ensures Moved(Last(run), Last(longer), t, Thread(Replied(ReplyAlone(r, Stored(Last(run)))), Idle))
  {
    var sent := Local(g, run, t, Thread(Begin(r), Idle));
    var once, res := OpAlone(g, sent, t);
    GrewMore(run, sent, once, t);
    longer := once;
    if Last(once).threads[t].prog.InsertAdd? || Last(once).threads[t].prog.UpdateAdd? {
      var twice, more := OpAlone(g, once, t);
      GrewMore(run, once, twice, t);
      longer := twice;
    }
  }

  /** Thread t alone sends an insert of an absent key and gets as far as its add. */
  lemma LookAlone(g: Geometry, run: seq<State>, t: Tid, k: u64, v: CText) returns (longer: seq<State>)
    requires CanStart(g, run, t) && k !in Stored(Last(run))
    ensures Run(g, longer) && Grew(run, longer, t) && Stored(Last(longer)) == Stored(Last(run))
    ensures Moved(Last(run), Last(longer), t, Thread(InsertAdd(k, v), Idle))
  {
    assert Begin(Insert(k, v)) == InsertLook(k, v);
    var sent := Local(g, run, t, Thread(InsertLook(k, v), Idle));
    var looked, res := KeyedAlone(g, sent, t);
    GrewMore(run, sent, looked, t);
    longer := Local(g, looked, t, Thread(InsertAdd(k, v), Idle));
    GrewMore(run, looked, longer, t);
  }

  /** Thread t alone carries out its add and replies. */
  lemma AddAlone(g: Geometry, run: seq<State>, t: Tid, k: u64, v: CText) returns (longer: seq<State>)
    requires Run(g, run) && t < |Last(run).threads| && Last(run).threads[t] == Thread(InsertAdd(k, v), Idle)
    requires |Last(run).locks| == g.n && AllFree(Last(run))
    ensures Run(g, longer) && Grew(run, longer, t) && Stored(Last(longer)) == Stored(Last(run))[k := v]
    ensures k !in Stored(Last(run)) ==> InFront(Last(longer).heap, g.hash(k), k, v)
    ensures Moved(Last(run), Last(longer), t, Thread(Replied(InsertDone(k)), Idle))
  {
    var added, res := KeyedAlone(g, run, t);
    longer := Local(g, added, t, Thread(Replied(InsertDone(k)), Idle));
    GrewMore(run, added, longer, t);
  }

  /** Thread t alone inserts an absent key. */
  lemma InsertAlone(g: Geometry, run: seq<State>, t: Tid, k: u64, v: CText) returns (longer: seq<State>)
    requires CanStart(g, run, t) && k !in Stored(Last(run))
    ensures Run(g, longer) && Grew(run, longer, t) && Stored(Last(longer)) == Stored(Last(run))[k := v]
    ensures InFront(Last(longer).heap, g.hash(k), k, v)
    ensures Moved(Last(run), Last(longer), t, Thread(Replied(InsertDone(k)), Idle))
  {
    var looked := LookAlone(g, run, t, k, v);
    longer := AddAlone(g, looked, t, k, v);
    GrewMore(run, looked, longer, t);
  }

  // ---- snapshots ----

  /** Thread t alone starts a save and asks for a snapshot of what it has counted. */
  lemma CountForSave(g: Geometry, run: seq<State>, t: Tid) returns (longer: seq<State>)
    requires CanStart(g, run, t) && Stored(Last(run)) != map[]
    ensures Run(g, longer) && Grew(run, longer, t) && Stored(Last(longer)) == Stored(Last(run))
    ensures Moved(Last(run), Last(longer), t, Thread(SaveRecount(|Stored(Last(run))|), Idle))
  {
    assert Begin(SaveSnapshot) == SaveCount;
    var sent := Local(g, run, t, Thread(SaveCount, Idle));
    var counted := CountAlone(g, sent, t);
    GrewMore(run, sent, counted, t);
    longer := Local(g, counted, t, Thread(SaveRecount(|Stored(Last(run))|), Idle));
    GrewMore(run, counted, longer, t);
  }

  /** Thread t alone counts again: it is told of a mismatch, or goes on to copy. */
  lemma Recount(g: Geometry, run: seq<State>, t: Tid, cap: nat) returns (longer: seq<State>)
    requires Run(g, run) && t < |Last(run).threads| && Last(run).threads[t] == Thread(SaveRecount(cap), Idle)
    requires AllFree(Last(run))
    ensures Run(g, longer) && Grew(run, longer, t) && Stored(Last(longer)) == Stored(Last(run))
    ensures Moved(Last(run), Last(longer), t, Thread(
                if |Stored(Last(run))| == cap then SaveCopy(cap) else Replied(SaveMismatch(cap)), Idle))
  {
    var counted := CountAlone(g, run, t);
    longer := Local(g, counted, t, Thread(
                if |Stored(Last(run))| == cap then SaveCopy(cap) else Replied(SaveMismatch(cap)), Idle));
    GrewMore(run, counted, longer, t);
  }

  /** Thread t alone copies and replies. */
  lemma CopyAlone(g: Geometry, run: seq<State>, t: Tid, cap: nat) returns (longer: seq<State>, table: Table)
    requires Run(g, run) && t < |Last(run).threads| && Last(run).threads[t] == Thread(SaveCopy(cap), Idle)
    requires AllFree(Last(run)) && cap > 0
    ensures Run(g, longer) && Grew(run, longer, t) && Stored(Last(longer)) == Stored(Last(run))
    ensures TableOf(g, Last(run).heap, table) && WellFormed(g, table) && ToMap(g, table) == Stored(Last(run))
    ensures Moved(Last(run), Last(longer), t,
                  Thread(Replied(SaveCopied(cap, First(ClipAll(Flatten(table)), cap))), Idle))
  {
    var copied;
    copied, table := SnapshotAlone(g, run, t, cap);
    longer := Local(g, copied, t, Thread(Replied(SaveCopied(cap, First(ClipAll(Flatten(table)), cap))), Idle));
    GrewMore(run, copied, longer, t);
  }

  lemma NothingToSave(g: Geometry, run: seq<State>, t: Tid) returns (longer: seq<State>)
    requires CanStart(g, run, t) && Stored(Last(run)) == map[]
    ensures Run(g, longer) && Grew(run, longer, t) && Stored(Last(longer)) == Stored(Last(run))
    ensures Moved(Last(run), Last(longer), t, Thread(Replied(SaveNothing), Idle))
  {
    assert Begin(SaveSnapshot) == SaveCount;
    var sent := Local(g, run, t, Thread(SaveCount, Idle));
    var counted := CountAlone(g, sent, t);
    GrewMore(run, sent, counted, t);
    longer := Local(g, counted, t, Thread(Replied(SaveNothing), Idle));
    GrewMore(run, counted, longer, t);
  }

  /** A save alone is answered by the whole table in scan order, or that there is nothing to save. */
  lemma SaveAlone(g: Geometry, run: seq<State>, t: Tid) returns (longer: seq<State>, table: Table)
    requires CanStart(g, run, t)
    ensures Run(g, longer) && Grew(run, longer, t) && Stored(Last(longer)) == Stored(Last(run))
    ensures WellFormed(g, table) && ToMap(g, table) == Stored(Last(run))
    ensures Moved(Last(run), Last(longer), t, Thread(Replied(
                if Stored(Last(run)) == map[] then SaveNothing
                else SaveCopied(|Stored(Last(run))|, ClipAll(Flatten(table)))), Idle))
  {
    var n := |Stored(Last(run))|;
    if Stored(Last(run)) == map[] {
      longer := NothingToSave(g, run, t);
      table := EmptyTable(g);
    } else {
      var counted := CountForSave(g, run, t);
      var recounted := Recount(g, counted, t, n);
      GrewMore(run, counted, recounted, t);
      longer, table := CopyAlone(g, recounted, t, n);
      GrewMore(run, recounted, longer, t);
      FlattenIsMap(g, table);
    }
  }
}
