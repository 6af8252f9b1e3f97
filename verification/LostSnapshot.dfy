/** A save of a store that is never empty can leave a file that holds nothing, or one that misses
    a key that was never removed: from every reachable state, in a store with any hash and any
    number of buckets. */
module LostSnapshot {
  import opened KvTypes
  import opened Chains
  import opened Requests
  import opened Machine
  import opened LostInsert
  import opened Scans
  import opened SnapshotFile
  import opened Solo
  import opened SoloRequests
  import Restart

  const ONE: map<u64, CText> := map[1 := "a"]
  const TWO: map<u64, CText> := map[1 := "a", 2 := "b"]

  /** After run and up to the end of longer the map is m or m'. */
  ghost predicate MapsSince(run: seq<State>, longer: seq<State>, m: map<u64, CText>, m': map<u64, CText>) {
    |run| < |longer| && run <= longer && forall y: nat | |run| <= y < |longer| :: OldOrNew(longer, y, m, m')
  }

  lemma MapsOf(a: seq<State>, b: seq<State>, c: seq<State>, d: seq<State>, t: Tid, u: Tid,
               m: map<u64, CText>, m': map<u64, CText>)
    requires Grew(a, b, t) && Grew(b, c, u) && Grew(c, d, t)
    requires Stored(Last(a)) == Stored(Last(b)) == m && Stored(Last(c)) == Stored(Last(d)) == m'
    ensures MapsSince(a, d, m, m')
  {
    forall y: nat | |a| <= y < |d| ensures OldOrNew(d, y, m, m') {
      if y < |b| {
        assert OldOrNew(b, y, m, m) && d[y] == b[y];
      } else if y < |c| {
        assert OldOrNew(c, y, m, m') && d[y] == c[y];
      } else {
        assert OldOrNew(d, y, m', m');
      }
    }
  }

  /** From any state in which two threads are idle, no lock is held, something is stored and k is
      absent: one saves while the other inserts k between the two counts. From the start of the
      save to its reply the store holds the old pairs, and in the end also the new one. */
  lemma SaveDuringInsert(g: Geometry, run: seq<State>, t: Tid, u: Tid, k: u64, v: CText) returns (longer: seq<State>)
    requires CanStart(g, run, t) && CanStart(g, run, u) && t != u
    requires Stored(Last(run)) != map[] && k !in Stored(Last(run))
    ensures Run(g, longer) && MapsSince(run, longer, Stored(Last(run)), Stored(Last(run))[k := v])
    ensures Stored(Last(longer)) == Stored(Last(run))[k := v] && |Last(longer).threads| == |Last(run).threads|
    ensures Last(longer).threads[t].prog == Replied(SaveMismatch(|Stored(Last(run))|))
    ensures Last(longer).threads[u].prog == Replied(InsertDone(k))
  {
    var m := Stored(Last(run));
    var counted := CountForSave(g, run, t);
    var inserted := InsertAlone(g, counted, u, k, v);
    assert |m[k := v]| == |m| + 1;
    longer := Recount(g, inserted, t, |m|);
    MapsOf(run, counted, inserted, longer, t, u, m, m[k := v]);
  }

  // ---- an insert between the re-count and the copy ----

  /** The last entry of a scan is the last of the last chain that is not empty. */
  lemma {:induction false} LastScanned(t: seq<Chain>) returns (b: nat)
    requires Flatten(t) != []
    ensures b < |t| && t[b] != [] && Flatten(t)[|Flatten(t)| - 1] == t[b][|t[b]| - 1]
    ensures forall a | b < a < |t| :: t[a] == []
  {
    var n := |t| - 1;
    if t[n] != [] {
      b := n;
    } else {
      b := LastScanned(t[..n]);
      assert forall a | b < a < n :: t[a] == t[..n][a];
    }
  }

  /** The key in front of its chain is scanned last exactly when every other key hashes to an
      earlier bucket. */
  lemma {:induction false} ScannedLast(g: Geometry, table: Table, k: u64, v: CText)
    requires WellFormed(g, table) && |table[g.hash(k)]| > 0 && table[g.hash(k)][0] == Entry(k, v)
    ensures |Flatten(table)| > 0
    ensures Flatten(table)[|Flatten(table)| - 1].key == k
            <==> forall x: u64 | x != k && Get(g, table, x).Some? :: g.hash(x) < g.hash(k)
  {
    FlattenMembers(g, table);
    assert Entry(k, v) in Flatten(table);
    var b := LastScanned(table);
    var last := table[b][|table[b]| - 1];
    assert g.hash(last.key) == b;
    forall x: u64 | x != k && Get(g, table, x).Some? ensures g.hash(x) <= b && (last.key == k ==> g.hash(x) < b) {
      assert table[g.hash(x)] != [];
    }
    if last.key != k { FindUnique(table[b], |table[b]| - 1); }
    assert g.hash(k) <= b by { assert table[g.hash(k)] != []; }
  }

  /** Of one entry more than there is room for, the one scanned last is missing. */
  lemma {:induction false} CutByOne(all: seq<Entry>, max: nat)
    requires Distinct(all) && |all| == max + 1
    ensures var out := First(ClipAll(all), max);
            |out| == max && Distinct(out) && Keys(out) == Keys(all) - {all[max].key}
            && forall n | 0 <= n < max :: out[n] == Entry(all[n].key, Clip(all[n].value))
  {
    var out := First(ClipAll(all), max);
    forall k ensures k in Keys(out) <==> k in Keys(all) && k != all[max].key {
      if k in Keys(all) && k != all[max].key {
        var n :| 0 <= n < |all| && all[n].key == k;
        assert out[n].key == k;
      }
    }
  }

  /** Every copied pair is stored, cut to its field. */
  ghost predicate CopiedFrom(m: map<u64, CText>, out: seq<Entry>) {
    forall n | 0 <= n < |out| :: out[n].key in m && out[n].value == Clip(m[out[n].key])
  }

  lemma {:induction false} ScannedPairs(g: Geometry, table: Table)
    requires WellFormed(g, table)
    ensures Keys(Flatten(table)) == ToMap(g, table).Keys
    ensures CopiedFrom(ToMap(g, table), ClipAll(Flatten(table)))
  {
    var all, m := Flatten(table), ToMap(g, table);
    FlattenIsMap(g, table);
    forall n | 0 <= n < |all| ensures all[n].key in m && m[all[n].key] == all[n].value {
      assert all[n] in all && all[n] == Entry(all[n].key, all[n].value);
    }
    forall x | x in m ensures x in Keys(all) {
      assert Entry(x, m[x]) in all;
      var n :| 0 <= n < |all| && all[n] == Entry(x, m[x]);
      assert all[n].key == x;
    }
  }

  /** The old keys are those of the table but k. */
  lemma {:induction false} OldKeys(g: Geometry, table: Table, m: map<u64, CText>, k: u64, v: CText)
    requires WellFormed(g, table) && k !in m && ToMap(g, table) == m[k := v]
    ensures forall x: u64 :: x in m <==> x != k && Get(g, table, x).Some?
    ensures |m[k := v]| == |m| + 1 && m[k := v].Keys == m.Keys + {k}
  {
    assert forall x: u64 :: x in ToMap(g, table) <==> Get(g, table, x).Some?;
  }

  lemma {:induction false} MissingOne(keys: set<u64>, k: u64, z: u64, left: set<u64>)
    requires k !in keys && z in keys + {k} && left == keys + {k} - {z}
    ensures keys <= left <==> z == k
  {
    if z != k { assert z in keys && z !in left; }
  }

  lemma {:induction false} CutKeys(all: Chain, keys: set<u64>, k: u64, n: nat)
    requires Distinct(all) && Keys(all) == keys + {k} && k !in keys && |all| == n + 1
    ensures var out := First(ClipAll(all), n);
            |out| == n && Distinct(out) && (keys <= Keys(out) <==> all[n].key == k)
  {
    CutByOne(all, n);
    assert all[n].key in Keys(all);
    MissingOne(keys, k, all[n].key, Keys(First(ClipAll(all), n)));
  }

  lemma {:induction false} FlattenSize(g: Geometry, table: Table)
    requires WellFormed(g, table)
    ensures Distinct(Flatten(table)) && |Flatten(table)| == |ToMap(g, table)|
  {
    FlattenIsMap(g, table);
  }

  lemma CutPairs(m: map<u64, CText>, all: seq<Entry>, n: nat)
    requires CopiedFrom(m, all)
    ensures CopiedFrom(m, First(all, n))
  {
  }

  /** The copies of a table that got the key k after there were |m|: one key is missing, and it is an
      old one unless every old key hashes to an earlier bucket than k. */
  lemma {:induction false} CutCopy(g: Geometry, table: Table, m: map<u64, CText>, k: u64, v: CText)
    requires WellFormed(g, table) && k !in m && ToMap(g, table) == m[k := v]
    requires |table[g.hash(k)]| > 0 && table[g.hash(k)][0] == Entry(k, v)
    ensures var out := First(ClipAll(Flatten(table)), |m|);
            && |out| == |m| && Distinct(out) && CopiedFrom(m[k := v], out)
            && (m.Keys <= Keys(out) <==> forall x | x in m :: g.hash(x) < g.hash(k))
  {
    FlattenSize(g, table);
    OldKeys(g, table, m, k, v);
    ScannedPairs(g, table);
    CutPairs(m[k := v], ClipAll(Flatten(table)), |m|);
    CutKeys(Flatten(table), m.Keys, k, |m|);
    ScannedLast(g, table, k, v);
  }

  /** From any state in which two threads are idle, no lock is held, something is stored and k is
      absent: one saves while the other inserts k after the re-count. Both counts agree, and the copy
      is one entry short. An old key, stored throughout the save, is missing if and only if some
      old key does not hash to an earlier bucket than k. */
  lemma InsertDuringCopy(g: Geometry, run: seq<State>, t: Tid, u: Tid, k: u64, v: CText)
      returns (longer: seq<State>, out: seq<Entry>)
    requires CanStart(g, run, t) && CanStart(g, run, u) && t != u
    requires Stored(Last(run)) != map[] && k !in Stored(Last(run))
    ensures Run(g, longer) && MapsSince(run, longer, Stored(Last(run)), Stored(Last(run))[k := v])
    ensures Stored(Last(longer)) == Stored(Last(run))[k := v] && |Last(longer).threads| == |Last(run).threads|
    ensures Last(longer).threads[t].prog == Replied(SaveCopied(|Stored(Last(run))|, out))
    ensures Last(longer).threads[u].prog == Replied(InsertDone(k))
    ensures var m := Stored(Last(run));
            && |out| == |m| && Distinct(out) && CopiedFrom(m[k := v], out)
            && (m.Keys <= Keys(out) <==> forall x | x in m :: g.hash(x) < g.hash(k))
  {
    var m := Stored(Last(run));
    var counted := CountForSave(g, run, t);
    var recounted := Recount(g, counted, t, |m|);
    GrewMore(run, counted, recounted, t);
    var inserted := InsertAlone(g, recounted, u, k, v);
    var table;
    longer, table := CopyAlone(g, inserted, t, |m|);
    TableFront(g, Last(inserted).heap, table, g.hash(k), k, v);
    CutCopy(g, table, m, k, v);
    out := First(ClipAll(Flatten(table)), |m|);
    MapsOf(run, recounted, inserted, longer, t, u, m, m[k := v]);
  }

  // ---- from the initial state to the file ----

  lemma OneStored(g: Geometry, k: u64, v: CText) returns (run: seq<State>)
    ensures CanStart(g, run, 1) && CanStart(g, run, 2) && |Last(run).threads| == 3
    ensures Stored(Last(run)) == map[k := v] && |map[k := v]| == 1 && map[k := v] != map[]
  {
    var start := Start(g, 3);
    assert CanStart(g, start, 0) && CanStart(g, start, 1) && CanStart(g, start, 2);
    run := InsertAlone(g, start, 0, k, v);
    assert k in map[k := v];
  }

  /** In a store of every shape, from the initial state: after state i the store always holds key 1,
      and the file of the save that begins there restores to nothing, whatever it held before. */
  lemma {:induction false} SaveLosesEverything(g: Geometry, h: Geometry, before: Option<seq<Byte>>, pad: Pad)
      returns (run: seq<State>, i: nat)
    ensures Run(g, run) && i + 1 < |run| && forall y: nat | i < y < |run| :: OldOrNew(run, y, ONE, TWO)
    ensures Stored(run[i]) == ONE && Stored(Last(run)) == TWO
    ensures |run[i].threads| == |Last(run).threads| == 3 && run[i].threads[1] == Thread(Ready, Idle)
    ensures Last(run).threads[1].prog == Replied(SaveMismatch(1))
    ensures var file := Restart.FileAfter(before, SaveMismatch(1), pad, []);
            file.Some? && Complete(file.value) && Restored(h, file.value) == map[]
  {
    var one := OneStored(g, 1, "a");
    i := |one| - 1;
    assert ONE[2 := "b"] == TWO;
    run := SaveDuringInsert(g, one, 1, 2, 2, "b");
    assert run[i] == Last(one);
    Restart.MismatchRestoresNothing(before, 1, h, pad);
  }

  /** In a store of every shape, from the initial state, and for any two keys, the one whose bucket is
      scanned first inserted last: after state i the store always holds a, and the file of the
      save that begins there, of which no mismatch is reported, restores to k alone. */
  lemma {:induction false} SaveLosesKey(g: Geometry, a: u64, v: CText, k: u64, w: CText,
                                        h: Geometry, before: Option<seq<Byte>>, pad: Pad, padding: Pad)
      returns (run: seq<State>, i: nat)
    requires a != k && g.hash(k) <= g.hash(a) && |w| < MAX_VALUE_LEN
    ensures Run(g, run) && i + 1 < |run|
    ensures forall y: nat | i < y < |run| :: OldOrNew(run, y, map[a := v], map[a := v, k := w])
    ensures Stored(run[i]) == map[a := v] && Stored(Last(run)) == map[a := v, k := w]
    ensures |run[i].threads| == |Last(run).threads| == 3 && run[i].threads[1] == Thread(Ready, Idle)
    ensures Last(run).threads[1].prog == Replied(SaveCopied(1, [Entry(k, w)]))
    ensures var file := Restart.FileAfter(before, SaveCopied(1, [Entry(k, w)]), pad, [padding]);
            file.Some? && Complete(file.value) && Restored(h, file.value) == map[k := w]
  {
    var one := OneStored(g, a, v);
    i := |one| - 1;
    assert map[a := v][k := w] == map[a := v, k := w];
    var out;
    run, out := InsertDuringCopy(g, one, 1, 2, k, w);
    assert run[i] == Last(one);
    assert out == [Entry(k, w)] by {
      assert !(map[a := v].Keys <= Keys(out)) by { assert a in map[a := v]; }
      CopiedAlone(a, v, k, w, out);
    }
    OneCopyRestores(k, w, h, before, pad, padding);
  }

  lemma CopiedAlone(a: u64, v: CText, k: u64, w: CText, out: seq<Entry>)
    requires |out| == 1 && CopiedFrom(map[a := v, k := w], out)
    requires !(map[a := v].Keys <= Keys(out)) && a != k && |w| < MAX_VALUE_LEN
    ensures out == [Entry(k, w)]
  {
    assert out[0].key in Keys(out);
  }

  lemma {:induction false} OneCopyRestores(k: u64, w: CText, h: Geometry, before: Option<seq<Byte>>, pad: Pad,
                                           padding: Pad)
    requires |w| < MAX_VALUE_LEN
    ensures var file := Restart.FileAfter(before, SaveCopied(1, [Entry(k, w)]), pad, [padding]);
            file.Some? && Complete(file.value) && Restored(h, file.value) == map[k := w]
  {
    var out := [Entry(k, w)];
    Restart.CopyRestores(SaveCopied(1, out), h, pad, [padding]);
    assert out[0].key == k && Keys(out) == {k};
  }
}
