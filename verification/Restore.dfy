/** Replaying saved entries as inserts: the merge it computes, and what saving and then
    restoring does to a table. */
module Restore {
  import opened KvTypes
  import opened Chains

  /** One insert request, when its value could be allocated. */
  function InsertIfAbsent(g: Geometry, t: Table, e: Entry): Table
    requires |t| == g.n
  {
    if Get(g, t, e.key).Some? then t else Put(g, t, e.key, e.value)
  }

  /** The entries inserted one after another. */
  function RestoreAll(g: Geometry, t: Table, es: seq<Entry>): (r: Table)
    requires |t| == g.n
    ensures |r| == g.n
  {
    if es == [] then t else InsertIfAbsent(g, RestoreAll(g, t, es[..|es| - 1]), es[|es| - 1])
  }

  /** Restore is a left-biased merge: keys already stored keep their values, and each missing
      key takes the value of its first entry. */
  lemma {:induction false} RestoreMerges(g: Geometry, t: Table, es: seq<Entry>)
    requires WellFormed(g, t)
    ensures WellFormed(g, RestoreAll(g, t, es))
    ensures forall k: u64 :: Get(g, RestoreAll(g, t, es), k) == if Get(g, t, k).Some? then Get(g, t, k) else Find(es, k)
  {
    if es != [] {
      var front, last := es[..|es| - 1], es[|es| - 1];
      RestoreMerges(g, t, front);
      var r := RestoreAll(g, t, front);
      PutRefines(g, r, last.key, last.value);
      forall k: u64
        ensures Get(g, RestoreAll(g, t, es), k) == if Get(g, t, k).Some? then Get(g, t, k) else Find(es, k)
      {
        PutChain(r[g.hash(last.key)], last.key, last.value, k);
      }
    }
  }

  /** Entries whose keys are all stored change nothing. */
  lemma {:induction false} RestorePresent(g: Geometry, t: Table, es: seq<Entry>)
    requires |t| == g.n && forall i | 0 <= i < |es| :: Get(g, t, es[i].key).Some?
    ensures RestoreAll(g, t, es) == t
  {
    if es != [] { RestorePresent(g, t, es[..|es| - 1]); }
  }

  /** Restoring the same file again changes nothing, not even the order of a chain. */
  lemma RestoreTwice(g: Geometry, t: Table, es: seq<Entry>)
    requires WellFormed(g, t)
    ensures RestoreAll(g, RestoreAll(g, t, es), es) == RestoreAll(g, t, es)
  {
    RestoreMerges(g, t, es);
    RestorePresent(g, RestoreAll(g, t, es), es);
  }

  lemma FindInAnyOrder(es: seq<Entry>, fs: seq<Entry>, k: u64)
    requires Distinct(es) && Distinct(fs) && multiset(es) == multiset(fs)
    ensures Find(es, k) == Find(fs, k)
  {
    forall v: CText ensures Find(es, k) == Some(v) <==> Find(fs, k) == Some(v) {
      MemberOfBucket(es, k, v);
      MemberOfBucket(fs, k, v);
      assert Entry(k, v) in multiset(es) <==> Entry(k, v) in multiset(fs);
    }
  }

  /** For distinct keys the final map does not depend on the order of the entries. */
  lemma {:induction false} RestoreOrder(g: Geometry, t: Table, es: seq<Entry>, fs: seq<Entry>)
    requires WellFormed(g, t) && Distinct(es) && Distinct(fs) && multiset(es) == multiset(fs)
    ensures ToMap(g, RestoreAll(g, t, es)) == ToMap(g, RestoreAll(g, t, fs))
  {
    RestoreMerges(g, t, es);
    RestoreMerges(g, t, fs);
    forall k: u64 ensures Find(es, k) == Find(fs, k) { FindInAnyOrder(es, fs, k); }
    SameMap(g, RestoreAll(g, t, es), ToMap(g, RestoreAll(g, t, fs)));
  }

  // ---- saving a table and restoring it into an empty one ----

  /** The map survives, whatever hash and number of buckets the new table has. */
  lemma SaveRestoreMap(g: Geometry, t: Table, h: Geometry)
    requires WellFormed(g, t)
    ensures WellFormed(h, RestoreAll(h, EmptyTable(h), Flatten(t)))
    ensures ToMap(h, RestoreAll(h, EmptyTable(h), Flatten(t))) == ToMap(g, t)
  {
    RestoreMerges(h, EmptyTable(h), Flatten(t));
    FlattenIsMap(g, t);
    forall k: u64 ensures Get(h, EmptyTable(h), k) == None && Find(Flatten(t), k) == Get(g, t, k) {
      forall v: CText ensures Find(Flatten(t), k) == Some(v) <==> Get(g, t, k) == Some(v) {
        MemberOfBucket(Flatten(t), k, v);
      }
    }
    SameMap(h, RestoreAll(h, EmptyTable(h), Flatten(t)), ToMap(g, t));
  }

  function Reverse(c: Chain): (r: Chain)
    ensures |r| == |c|
    ensures forall i | 0 <= i < |c| :: r[i] == c[|c| - 1 - i]
  {
    seq(|c|, i requires 0 <= i < |c| => c[|c| - 1 - i])
  }

  /** Every chain turned round. */
  function ReverseChains(t: Table): (r: Table)
    ensures |r| == |t|
    ensures forall b | 0 <= b < |t| :: r[b] == Reverse(t[b])
  {
    seq(|t|, b requires 0 <= b < |t| => Reverse(t[b]))
  }

  /** After the buckets below b and the first i entries of bucket b. */
  ghost predicate HalfRestored(g: Geometry, t: Table, b: nat, i: nat, r: Table) {
    && b < |t|
    && i <= |t[b]|
    && |r| == |t| == g.n
    && (forall a | 0 <= a < b :: r[a] == Reverse(t[a]))
    && r[b] == Reverse(t[b][..i])
    && forall a | b < a < |t| :: r[a] == []
  }

  lemma RestoreOne(g: Geometry, t: Table, b: nat, i: nat, r: Table)
    requires WellFormed(g, t) && b < |t| && 0 < i <= |t[b]| && HalfRestored(g, t, b, i - 1, r)
    ensures HalfRestored(g, t, b, i, InsertIfAbsent(g, r, t[b][i - 1]))
  {
    var e := t[b][i - 1];
    assert g.hash(e.key) == b;
    assert IndexOf(r[b], e.key) == i - 1 by {
      assert forall j | 0 <= j < i - 1 :: r[b][j].key != e.key;
    }
    assert [e] + Reverse(t[b][..i - 1]) == Reverse(t[b][..i]);
  }

  lemma {:induction false} RestorePrefix(g: Geometry, t: Table, b: nat, i: nat)
    requires WellFormed(g, t) && b < |t| && i <= |t[b]|
    ensures HalfRestored(g, t, b, i, RestoreAll(g, EmptyTable(g), Flatten(t[..b]) + t[b][..i]))
    decreases b, i
  {
    var es := Flatten(t[..b]) + t[b][..i];
    if i > 0 {
      RestorePrefix(g, t, b, i - 1);
      var front := Flatten(t[..b]) + t[b][..i - 1];
      assert es == front + [t[b][i - 1]] && es[..|es| - 1] == front;
      RestoreOne(g, t, b, i, RestoreAll(g, EmptyTable(g), front));
    } else if b > 0 {
      var n := |t[b - 1]|;
      RestorePrefix(g, t, b - 1, n);
      FlattenNext(t, b - 1);
      assert t[b - 1][..n] == t[b - 1] && es == Flatten(t[..b - 1]) + t[b - 1][..n];
    } else {
      assert es == [];
    }
  }

  /** The scan is head first and insertion is at the head, so with the same hash and bucket
      count a save and restore reverses every chain; a second round trip gives the original back. */
  lemma {:induction false} SaveRestoreReverses(g: Geometry, t: Table)
    requires WellFormed(g, t)
    ensures RestoreAll(g, EmptyTable(g), Flatten(t)) == ReverseChains(t)
    ensures WellFormed(g, ReverseChains(t))
    ensures RestoreAll(g, EmptyTable(g), Flatten(ReverseChains(t))) == t
  {
    SaveRestoreOnce(g, t);
    SaveRestoreMap(g, t, g);
    SaveRestoreOnce(g, ReverseChains(t));
    forall b | 0 <= b < |t| ensures Reverse(Reverse(t[b])) == t[b] {}
    assert ReverseChains(ReverseChains(t)) == t;
  }

  lemma SaveRestoreOnce(g: Geometry, t: Table)
    requires WellFormed(g, t)
    ensures RestoreAll(g, EmptyTable(g), Flatten(t)) == ReverseChains(t)
  {
    assert g.hash(0) < g.n;
    var b := |t| - 1;
    RestorePrefix(g, t, b, |t[b]|);
    assert t[b][..|t[b]|] == t[b];
    assert RestoreAll(g, EmptyTable(g), Flatten(t)) == ReverseChains(t);
  }

  // ---- how many entries a restore adds ----

  ghost function Fresh(m: map<u64, CText>, es: seq<Entry>): set<u64> {
    Keys(es) - m.Keys
  }

  lemma {:induction false} RestoredKeys(g: Geometry, t: Table, es: seq<Entry>)
    requires WellFormed(g, t)
    ensures ToMap(g, RestoreAll(g, t, es)).Keys == ToMap(g, t).Keys + Keys(es)
  {
    RestoreMerges(g, t, es);
    var m, m' := ToMap(g, t), ToMap(g, RestoreAll(g, t, es));
    forall k: u64 ensures k in m' <==> k in m || k in Keys(es) {}
  }

  /** As many keys are added as the file has missing keys. The daemon's restored counter is
      |es|, so it is the number of added keys exactly when the file's keys are distinct and
      none was stored before. */
  lemma {:induction false} RestoredCounter(g: Geometry, t: Table, es: seq<Entry>)
    requires WellFormed(g, t)
    ensures |ToMap(g, RestoreAll(g, t, es))| - |ToMap(g, t)| == |es|
            <==> Distinct(es) && Keys(es) !! ToMap(g, t).Keys
  {
    RestoredKeys(g, t, es);
    var m, m' := ToMap(g, t), ToMap(g, RestoreAll(g, t, es));
    assert m'.Keys == m.Keys + Fresh(m, es);
    assert |m'.Keys| == |m.Keys| + |Fresh(m, es)|;
    FreshSize(m, es);
  }

  lemma {:induction false} FreshSize(m: map<u64, CText>, es: seq<Entry>)
    ensures |Fresh(m, es)| == |es| <==> Distinct(es) && Keys(es) !! m.Keys
  {
    KeysSize(es);
    SubsetSize(Fresh(m, es), Keys(es));
    if Keys(es) !! m.Keys {
      assert Fresh(m, es) == Keys(es);
    } else {
      var k :| k in Keys(es) && k in m.Keys;
      SubsetSize(Fresh(m, es), Keys(es) - {k});
    }
  }

  lemma {:induction false} KeysSize(es: seq<Entry>)
    ensures |Keys(es)| <= |es|
    ensures |Keys(es)| == |es| <==> Distinct(es)
  {
    if es != [] {
      var front, k := es[..|es| - 1], es[|es| - 1].key;
      KeysSize(front);
      assert Keys(es) == Keys(front) + {k};
      if k in Keys(front) {
        assert Keys(es) == Keys(front);
      } else {
        assert Distinct(es) <==> Distinct(front);
      }
    }
  }
}
