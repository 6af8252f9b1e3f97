/** From a save among other threads to the file it leaves, and to the store a restart finds. */
module Restart {
  import opened KvTypes
  import opened Chains
  import opened Requests
  import opened Restore
  import opened SnapshotFile
  import Machine
  import opened AtomicStore
  import Refinement
  import opened Scans
  import opened ThreePass
  import opened ValueBound

  /** The file after a save has had this reply. A mismatch leaves the calloc'ed buffer, so what
      is written is a header that announces no entries. */
  function FileAfter(before: Option<seq<Byte>>, reply: Reply, pad: Pad, pads: seq<Pad>): Option<seq<Byte>>
    requires reply.SaveMismatch? || reply.SaveCopied? ==> reply.cap < TWO_32
    requires reply.SaveCopied? ==> |pads| == |reply.out| < TWO_32
  {
    match reply
    case SaveMismatch(cap) => Some(EncodeFile(Header(0, cap, 0), pad, [], []))
    case SaveCopied(cap, out) => Some(EncodeFile(Header(0, cap, |out|), pad, RecordsOf(out), pads))
    case _ => before
  }

  /** Entries with distinct keys, restored into an empty store, are what it holds. */
  lemma {:induction false} ListedRestored(h: Geometry, out: seq<Entry>)
    requires Distinct(out)
    ensures var m := ToMap(h, RestoreAll(h, EmptyTable(h), out));
            && m.Keys == Keys(out)
            && forall n | 0 <= n < |out| :: out[n].key in m && m[out[n].key] == out[n].value
  {
    RestoreMerges(h, EmptyTable(h), out);
    forall k: u64 ensures Get(h, RestoreAll(h, EmptyTable(h), out), k) == Find(out, k) {
      assert Get(h, EmptyTable(h), k).None?;
    }
    forall n | 0 <= n < |out| ensures Find(out, out[n].key) == Some(out[n].value) { FindUnique(out, n); }
  }

  lemma {:induction false} CopyReadsBack(reply: Reply, pad: Pad, pads: seq<Pad>)
    requires reply.SaveCopied? && ValuesFit(reply.out)
    requires reply.cap < TWO_32 && |pads| == |reply.out| < TWO_32
    ensures var file := FileAfter(None, reply, pad, pads).value;
            |file| == 16 + 80 * |reply.out| && Complete(file) && EntriesIn(file) == reply.out
  {
    SavedEntriesReadBack(Header(0, reply.cap, |reply.out|), pad, reply.out, pads);
  }

  /** A written copy restores to exactly the pairs it lists. */
  lemma {:induction false} CopyRestores(reply: Reply, h: Geometry, pad: Pad, pads: seq<Pad>)
    requires reply.SaveCopied? && Distinct(reply.out) && ValuesFit(reply.out)
    requires reply.cap < TWO_32 && |pads| == |reply.out| < TWO_32
    ensures var file := FileAfter(None, reply, pad, pads).value;
            && |file| == 16 + 80 * |reply.out| && Complete(file)
            && Restored(h, file).Keys == Keys(reply.out)
            && forall n | 0 <= n < |reply.out| ::
                 reply.out[n].key in Restored(h, file) && Restored(h, file)[reply.out[n].key] == reply.out[n].value
  {
    CopyReadsBack(reply, pad, pads);
    ListedRestored(h, reply.out);
  }

  /** A mismatch loses everything: the file restores to an empty store. */
  lemma MismatchRestoresNothing(before: Option<seq<Byte>>, cap: nat, h: Geometry, pad: Pad)
    requires cap < TWO_32
    ensures var file := FileAfter(before, SaveMismatch(cap), pad, []).value;
            |file| == 16 && Complete(file) && EntriesIn(file) == [] && Restored(h, file) == map[]
  {
    SavedEntriesReadBack(Header(0, cap, 0), pad, [], []);
    assert RecordsOf([]) == [];
  }

  /** The value v was stored under k in some state from i to j. */
  ghost predicate WasStored(run: seq<Machine.State>, i: nat, j: nat, k: u64, v: CText) {
    exists y: nat :: i <= y <= j && y < |run| && k in Stored(run[y]) && Stored(run[y])[k] == v
  }

  /** With terminated messages a copied value is a stored one, uncut. */
  lemma SeenUncut(g: Geometry, run: seq<Machine.State>, i: nat, j: nat, e: Entry)
    requires Machine.Run(g, run) && Terminated(run) && PairSeen(ViewRun(run), i, j, e)
    ensures WasStored(run, i, j, e.key, e.value) && |e.value| < MAX_VALUE_LEN
  {
    var v := ViewRun(run);
    var y: nat :| i <= y <= j && y < |v| && e.key in v[y].m && e.value == Clip(v[y].m[e.key]);
    StoredValuesFit(g, run, y);
    assert v[y].m == Stored(run[y]);
  }

  /** The copied pairs are stored pairs, uncut. */
  lemma CopyUncut(g: Geometry, run: seq<Machine.State>, t: nat, i: nat, j: nat, cap: nat, out: seq<Entry>)
    requires Machine.Run(g, run) && Terminated(run) && Saving(ViewRun(run), t, i, j, SaveCopied(cap, out))
    ensures Distinct(out) && |out| <= cap && ValuesFit(out)
    ensures forall n | 0 <= n < |out| :: WasStored(run, i, j, out[n].key, out[n].value)
  {
    Refinement.RunRefines(g, run);
    var d, ws, fs, vs, es := CopySaw(g, ViewRun(run), t, i, j, cap, out);
    forall n | 0 <= n < |out| ensures WasStored(run, i, j, out[n].key, out[n].value) && |out[n].value| < MAX_VALUE_LEN {
      assert PairSeen(ViewRun(run), i, j, out[n]);
      SeenUncut(g, run, i, j, out[n]);
    }
  }

  /** So the file of a copy restores to exactly those pairs. */
  lemma {:induction false} CopiedFile(g: Geometry, run: seq<Machine.State>, t: nat, i: nat, j: nat, reply: Reply,
                                      h: Geometry, before: Option<seq<Byte>>, pad: Pad, pads: seq<Pad>)
    requires Machine.Run(g, run) && Terminated(run) && Saving(ViewRun(run), t, i, j, reply)
    requires reply.SaveCopied? && reply.cap < TWO_32 && |pads| == |reply.out|
    ensures |reply.out| <= reply.cap
    ensures var file := FileAfter(before, reply, pad, pads);
            && file.Some? && Complete(file.value) && Restored(h, file.value).Keys == Keys(reply.out)
            && forall k | k in Restored(h, file.value) :: WasStored(run, i, j, k, Restored(h, file.value)[k])
  {
    CopyUncut(g, run, t, i, j, reply.cap, reply.out);
    CopyRestores(reply, h, pad, pads);
    forall k | k in Keys(reply.out)
      ensures WasStored(run, i, j, k, Restored(h, FileAfter(before, reply, pad, pads).value)[k])
    {
      var n :| 0 <= n < |reply.out| && reply.out[n].key == k;
    }
  }

  /** k was stored in every state from i to j. */
  ghost predicate Stayed(run: seq<Machine.State>, i: nat, j: nat, k: u64) {
    forall y: nat | i <= y <= j && y < |run| :: k in Stored(run[y])
  }

  /** The file of a copy holds what its scan saw, cut at the capacity: all of it if and only if no
      more was seen than the capacity, and then every key that stayed. */
  lemma CopiedExactly(g: Geometry, run: seq<Machine.State>, t: nat, i: nat, j: nat, cap: nat, out: seq<Entry>)
      returns (vs: seq<nat>, es: seq<Chain>)
    requires Machine.Run(g, run) && Saving(ViewRun(run), t, i, j, SaveCopied(cap, out))
    ensures Visited(g, run, i, j, vs, es) && CutOf(g, es, cap, out)
    ensures Keys(out) == Keys(Flatten(es)) <==> |Flatten(es)| <= cap
    ensures |Flatten(es)| <= cap ==> forall k: u64 | Stayed(run, i, j, k) :: k in Keys(out)
  {
    Refinement.RunRefines(g, run);
    var d, ws, fs;
    d, ws, fs, vs, es := CopySaw(g, ViewRun(run), t, i, j, cap, out);
    VisitsView(g, run, d + 1, j, vs, es);
    forall k: u64 | Stayed(run, i, j, k) ensures Throughout(ViewRun(run), i, j, k) {
      forall y | i <= y <= j && y < |run| ensures k in ViewRun(run)[y].m { assert k in Stored(run[y]); }
    }
  }

  /** What is left whatever other threads did, when nothing failed. If and only if the two counts
      differed: a file that restores to nothing. Otherwise one that restores to exactly the copied
      pairs, each of which was stored during the save. These are all that the copying scan saw if
      and only if it saw no more entries than had been counted, and then no key that stayed is lost. */
  lemma {:induction false} FileExactly(g: Geometry, run: seq<Machine.State>, t: nat, i: nat, j: nat, reply: Reply,
                                       h: Geometry, before: Option<seq<Byte>>, pad: Pad, pads: seq<Pad>)
      returns (vs: seq<nat>, es: seq<Chain>)
    requires Machine.Run(g, run) && Terminated(run) && Saving(ViewRun(run), t, i, j, reply)
    requires reply.SaveMismatch? || reply.SaveCopied?
    requires reply.cap < TWO_32 && |pads| == if reply.SaveCopied? then |reply.out| else 0
    ensures reply.SaveCopied? ==> |reply.out| <= reply.cap
    ensures var file := FileAfter(before, reply, pad, pads);
            && file.Some? && Complete(file.value)
            && (forall k | k in Restored(h, file.value) :: WasStored(run, i, j, k, Restored(h, file.value)[k]))
            && if exists n: nat, m: nat :: n != m && Counts(ViewRun(run), t, i, j, n, m)
               then |file.value| == 16 && Restored(h, file.value) == map[]
               else
                 && reply.SaveCopied? && Restored(h, file.value).Keys == Keys(reply.out)
                 && Visited(g, run, i, j, vs, es) && CutOf(g, es, reply.cap, reply.out)
                 && (Restored(h, file.value).Keys == Keys(Flatten(es)) <==> |Flatten(es)| <= reply.cap)
                 && (|Flatten(es)| <= reply.cap ==>
                       forall k: u64 | Stayed(run, i, j, k) :: k in Restored(h, file.value))
  {
    Refinement.RunRefines(g, run);
    MismatchExactly(g, ViewRun(run), t, i, j, reply);
    if reply.SaveMismatch? {
      assert pads == [];
      MismatchRestoresNothing(before, reply.cap, h, pad);
      vs, es := [], [];
    } else {
      CopiedFile(g, run, t, i, j, reply, h, before, pad, pads);
      vs, es := CopiedExactly(g, run, t, i, j, reply.cap, reply.out);
    }
  }

  /** A save during which keys may go but none appears: unless the counts differed, a restart finds
      every key left in the end, and none that was not there at the start. */
  lemma {:induction false} NothingLostWithoutInserts(g: Geometry, run: seq<Machine.State>, t: nat, i: nat, j: nat,
                                                     reply: Reply, h: Geometry, before: Option<seq<Byte>>, pad: Pad,
                                                     pads: seq<Pad>)
    requires Machine.Run(g, run) && Terminated(run) && Saving(ViewRun(run), t, i, j, reply)
    requires reply.SaveCopied? && reply.cap < TWO_32 && |pads| == |reply.out|
    requires NoneAppears(ViewRun(run), i, j)
    ensures |reply.out| <= reply.cap
    ensures var file := FileAfter(before, reply, pad, pads);
            && file.Some? && Complete(file.value)
            && Stored(run[j]).Keys <= Restored(h, file.value).Keys <= Stored(run[i]).Keys
  {
    Refinement.RunRefines(g, run);
    CopiedFile(g, run, t, i, j, reply, h, before, pad, pads);
    CopyWithoutInserts(g, ViewRun(run), t, i, j, reply.cap, reply.out);
    assert ViewRun(run)[i].m == Stored(run[i]) && ViewRun(run)[j].m == Stored(run[j]);
  }

  /** Over every interleaving with terminated messages: a save during which no key came or went
      either reports an allocation failure, or found the store empty and left the old file, or
      leaves a file from which a restart, with any hash and bucket count, rebuilds exactly the
      stored keys, each with a value it had during the save. Values may be replaced meanwhile. */
  lemma {:induction false} SaveAndRestart(g: Geometry, run: seq<Machine.State>, t: nat, i: nat, j: nat,
                                          reply: Reply, keys: set<u64>, h: Geometry,
                                          before: Option<seq<Byte>>, pad: Pad, pads: seq<Pad>)
    requires Machine.Run(g, run) && Terminated(run)
    requires Saving(ViewRun(run), t, i, j, reply) && SameKeys(ViewRun(run), i, j, keys) && |keys| < TWO_32
    requires reply.SaveCopied? ==> |pads| == |reply.out|
    ensures reply.SaveFailed? || reply.SaveNothing? || reply.SaveCopied?
    ensures reply.SaveFailed? ==> FileAfter(before, reply, pad, pads) == before
    ensures reply.SaveNothing? ==> keys == {} && FileAfter(before, reply, pad, pads) == before
    ensures reply.SaveCopied? ==>
              && reply.cap == |reply.out| == |keys|
              && var file := FileAfter(before, reply, pad, pads);
                 && file.Some? && Complete(file.value) && Restored(h, file.value).Keys == keys
                 && forall k | k in keys :: WasStored(run, i, j, k, Restored(h, file.value)[k])
  {
    QuiescentSaveIsComplete(g, run, t, i, j, reply, keys);
    if reply.SaveCopied? {
      CopiedFile(g, run, t, i, j, reply, h, before, pad, pads);
    }
  }

  ghost predicate StoreAt(run: seq<Machine.State>, y: nat, m: map<u64, CText>) {
    y < |run| && Stored(run[y]) == m
  }

  ghost predicate SameStore(run: seq<Machine.State>, i: nat, j: nat, m: map<u64, CText>) {
    i <= j < |run| && forall y: nat | i <= y <= j :: StoreAt(run, y, m)
  }

  lemma SameStoreKeys(run: seq<Machine.State>, i: nat, j: nat, m: map<u64, CText>)
    requires SameStore(run, i, j, m)
    ensures SameKeys(ViewRun(run), i, j, m.Keys) && |m.Keys| == |m|
  {
    forall y: nat | i <= y <= j ensures KeysAt(ViewRun(run), y, m.Keys) {
      assert StoreAt(run, y, m) && ViewRun(run)[y].m == Stored(run[y]);
    }
  }

  lemma SameValues(run: seq<Machine.State>, i: nat, j: nat, m: map<u64, CText>, r: map<u64, CText>)
    requires SameStore(run, i, j, m)
    requires r.Keys == m.Keys && forall k | k in r :: WasStored(run, i, j, k, r[k])
    ensures r == m
  {
    forall k | k in r ensures r[k] == m[k] {
      var y: nat :| i <= y <= j && y < |run| && k in Stored(run[y]) && Stored(run[y])[k] == r[k];
      assert StoreAt(run, y, m);
    }
  }

  /** With values unchanged as well, the restart finds exactly the stored map. */
  lemma {:induction false} UnchangedStoreRestarts(g: Geometry, run: seq<Machine.State>, t: nat, i: nat, j: nat,
                                                  reply: Reply, m: map<u64, CText>, h: Geometry,
                                                  before: Option<seq<Byte>>, pad: Pad, pads: seq<Pad>)
    requires Machine.Run(g, run) && Terminated(run) && Saving(ViewRun(run), t, i, j, reply)
    requires SameStore(run, i, j, m) && |m| < TWO_32 && (reply.SaveCopied? ==> |pads| == |reply.out|)
    ensures reply.SaveFailed? || reply.SaveNothing? || reply.SaveCopied?
    ensures reply.SaveNothing? ==> m == map[] && FileAfter(before, reply, pad, pads) == before
    ensures reply.SaveCopied? ==>
              && reply.cap == |reply.out| == |m|
              && var file := FileAfter(before, reply, pad, pads);
                 file.Some? && Complete(file.value) && Restored(h, file.value) == m
  {
    SameStoreKeys(run, i, j, m);
    SaveAndRestart(g, run, t, i, j, reply, m.Keys, h, before, pad, pads);
    if reply.SaveCopied? { SameValues(run, i, j, m, Restored(h, FileAfter(before, reply, pad, pads).value)); }
  }
}
