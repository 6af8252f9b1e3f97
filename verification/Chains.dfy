/** The bucket table as a value: what one critical section of kv_hash.c does to one
    bucket chain, the finite map a table stands for, and the laws that tie the two. */
module Chains {
  import opened KvTypes

  /** The number of buckets and kv_bucket. Nothing but the range of the hash is used. */
  datatype Layout = Layout(n: nat, hash: u64 -> nat)

  ghost predicate InRange(g: Layout) {
    forall k: u64 :: g.hash(k) < g.n
  }

  type Geometry = g: Layout | InRange(g) witness Layout(1, (k: u64) => 0)

  type Chain = seq<Entry>
  type Table = seq<Chain>

  // ---- one chain ----

  /** Where a walk from the head stops: at the first entry with key k, or past the end. */
  function IndexOf(c: Chain, k: u64): (i: nat)
    ensures i <= |c|
    ensures i < |c| ==> c[i].key == k
    ensures forall j | 0 <= j < i :: c[j].key != k
  {
    if c == [] || c[0].key == k then 0 else 1 + IndexOf(c[1..], k)
  }

  function Find(c: Chain, k: u64): Option<CText> {
    var i := IndexOf(c, k);
    if i < |c| then Some(c[i].value) else None
  }

  /** Replace in place, or link a new entry at the head. */
  function PutIn(c: Chain, k: u64, v: CText): Chain {
    var i := IndexOf(c, k);
    if i < |c| then c[i := Entry(k, v)] else [Entry(k, v)] + c
  }

  function DropFrom(c: Chain, k: u64): Chain {
    var i := IndexOf(c, k);
    if i < |c| then c[..i] + c[i + 1..] else c
  }

  ghost predicate Distinct(c: Chain) {
    forall i, j | 0 <= i < j < |c| :: c[i].key != c[j].key
  }

  ghost function Keys(c: Chain): set<u64> {
    set i | 0 <= i < |c| :: c[i].key
  }

  // ---- the table ----

  ghost predicate Placed(g: Geometry, c: Chain, b: nat) {
    forall i | 0 <= i < |c| :: g.hash(c[i].key) == b
  }

  /** Each chain holds distinct keys of its own bucket. */
  ghost predicate Bucketed(g: Geometry, t: seq<Chain>) {
    forall b | 0 <= b < |t| :: Distinct(t[b]) && Placed(g, t[b], b)
  }

  ghost predicate WellFormed(g: Geometry, t: Table) {
    |t| == g.n && Bucketed(g, t)
  }

  function EmptyTable(g: Geometry): (t: Table)
    ensures WellFormed(g, t)
    ensures ToMap(g, t) == map[]
  {
    seq(g.n, b => [])
  }

  function Get(g: Geometry, t: Table, k: u64): Option<CText>
    requires |t| == g.n
  {
    Find(t[g.hash(k)], k)
  }

  function Put(g: Geometry, t: Table, k: u64, v: CText): Table
    requires |t| == g.n
  {
    t[g.hash(k) := PutIn(t[g.hash(k)], k, v)]
  }

  function Delete(g: Geometry, t: Table, k: u64): Table
    requires |t| == g.n
  {
    t[g.hash(k) := DropFrom(t[g.hash(k)], k)]
  }

  /** The finite map a table stands for. */
  ghost function ToMap(g: Geometry, t: Table): map<u64, CText>
    requires |t| == g.n
  {
    map k: u64 | Get(g, t, k).Some? :: Get(g, t, k).value
  }

  // ---- each operation is the map operation of the same name ----

  lemma FindUnique(c: Chain, i: nat)
    requires Distinct(c) && i < |c|
    ensures IndexOf(c, c[i].key) == i
  {
  }

  lemma {:induction false} PutChain(c: Chain, k: u64, v: CText, x: u64)
    requires Distinct(c)
    ensures Distinct(PutIn(c, k, v))
    ensures Find(PutIn(c, k, v), x) == if x == k then Some(v) else Find(c, x)
  {
    var d := PutIn(c, k, v);
    var i := IndexOf(c, x);
    if IndexOf(c, k) < |c| {
      if i < |c| { FindUnique(d, i); }
    } else {
      assert d[1..] == c;
    }
  }

  lemma {:induction false} DropDistinct(c: Chain, k: u64)
    requires Distinct(c)
    ensures Distinct(DropFrom(c, k))
    ensures forall j | 0 <= j < |DropFrom(c, k)| :: DropFrom(c, k)[j].key != k
  {
    var d, at := DropFrom(c, k), IndexOf(c, k);
    if at < |c| {
      forall j | 0 <= j < |d| ensures d[j] == c[if j < at then j else j + 1] {}
    }
  }

  lemma {:induction false} DropChain(c: Chain, k: u64, x: u64)
    requires Distinct(c)
    ensures Distinct(DropFrom(c, k))
    ensures Find(DropFrom(c, k), x) == if x == k then None else Find(c, x)
  {
    DropDistinct(c, k);
    var d, i, at := DropFrom(c, k), IndexOf(c, x), IndexOf(c, k);
    if at < |c| && x != k {
      if i < |c| {
        FindUnique(d, if i < at then i else i - 1);
      } else {
        assert forall j | 0 <= j < |d| :: d[j] in c;
      }
    }
  }

  /** kv_hash_add is map update; every other key is framed. */
  lemma PutRefines(g: Geometry, t: Table, k: u64, v: CText)
    requires WellFormed(g, t)
    ensures WellFormed(g, Put(g, t, k, v))
    ensures ToMap(g, Put(g, t, k, v)) == ToMap(g, t)[k := v]
  {
    var t' := Put(g, t, k, v);
    forall x: u64 ensures Get(g, t', x) == if x == k then Some(v) else Get(g, t, x) {
      PutChain(t[g.hash(k)], k, v, x);
    }
    PutChain(t[g.hash(k)], k, v, k);
    SameMap(g, t', ToMap(g, t)[k := v]);
  }

  /** kv_hash_remove is map deletion; every other key is framed. */
  lemma DeleteRefines(g: Geometry, t: Table, k: u64)
    requires WellFormed(g, t)
    ensures WellFormed(g, Delete(g, t, k))
    ensures ToMap(g, Delete(g, t, k)) == ToMap(g, t) - {k}
  {
    var t' := Delete(g, t, k);
    forall x: u64 ensures Get(g, t', x) == if x == k then None else Get(g, t, x) {
      DropChain(t[g.hash(k)], k, x);
    }
    DropChain(t[g.hash(k)], k, k);
    DropPlaced(g, t[g.hash(k)], k);
    SameMap(g, t', ToMap(g, t) - {k});
  }

  lemma DropPlaced(g: Geometry, c: Chain, k: u64)
    requires Placed(g, c, g.hash(k))
    ensures Placed(g, DropFrom(c, k), g.hash(k))
  {
  }

  lemma SameMap(g: Geometry, t: Table, m: map<u64, CText>)
    requires |t| == g.n
    requires forall k: u64 :: Get(g, t, k) == if k in m then Some(m[k]) else None
    ensures ToMap(g, t) == m
  {
  }

  // ---- the bucket-by-bucket scan ----

  /** Entries in scan order: bucket 0 first, each chain from its head. */
  function Flatten(t: seq<Chain>): Chain {
    if t == [] then [] else Flatten(t[..|t| - 1]) + t[|t| - 1]
  }

  /** The scan shows exactly the pairs of the map, each key once. */
  lemma {:induction false} FlattenIsMap(g: Geometry, t: Table)
    requires WellFormed(g, t)
    ensures Distinct(Flatten(t))
    ensures forall k: u64, v: CText ::
              Entry(k, v) in Flatten(t) <==> k in ToMap(g, t) && ToMap(g, t)[k] == v
    ensures |Flatten(t)| == |ToMap(g, t)|
  {
    FlattenMembers(g, t);
    forall k: u64, v: CText
      ensures Entry(k, v) in Flatten(t) <==> k in ToMap(g, t) && ToMap(g, t)[k] == v
    {
      MemberOfBucket(t[g.hash(k)], k, v);
    }
    var m, f := ToMap(g, t), Flatten(t);
    DistinctSize(f);
    assert Keys(f) == m.Keys by {
      forall k: u64 ensures k in Keys(f) <==> k in m {
        if k in m { assert Entry(k, m[k]) in f; }
        if k in Keys(f) {
          var i :| 0 <= i < |f| && f[i].key == k;
          assert f[i] == Entry(k, f[i].value) && f[i] in f;
        }
      }
    }
  }

  lemma {:induction false} FlattenMembers(g: Geometry, t: seq<Chain>)
    requires Bucketed(g, t)
    ensures Distinct(Flatten(t))
    ensures forall e :: e in Flatten(t) <==> g.hash(e.key) < |t| && e in t[g.hash(e.key)]
  {
    if t != [] {
      var n := |t| - 1;
      FlattenMembers(g, t[..n]);
      var f, h, c := Flatten(t), Flatten(t[..n]), t[n];
      assert f == h + c;
      forall i, j | 0 <= i < j < |f| ensures f[i].key != f[j].key {
        if i < |h| <= j { assert f[i] in h && f[j] in c; }
      }
    }
  }

  lemma FlattenNext(t: seq<Chain>, b: nat)
    requires b < |t|
    ensures Flatten(t[..b + 1]) == Flatten(t[..b]) + t[b]
  {
    assert t[..b + 1][..b] == t[..b];
  }

  /** What the scan has seen before bucket b is a prefix of the whole scan. */
  lemma {:induction false} FlattenPrefixOf(t: Table, b: nat)
    requires b <= |t|
    ensures |Flatten(t[..b])| <= |Flatten(t)| && Flatten(t[..b]) == Flatten(t)[..|Flatten(t[..b])|]
    decreases |t| - b
  {
    if b < |t| {
      FlattenNext(t, b);
      FlattenPrefixOf(t, b + 1);
    } else {
      assert t[..b] == t;
    }
  }

  lemma MemberOfBucket(c: Chain, k: u64, v: CText)
    requires Distinct(c)
    ensures Entry(k, v) in c <==> Find(c, k) == Some(v)
  {
    if Entry(k, v) in c {
      var i :| 0 <= i < |c| && c[i] == Entry(k, v);
      FindUnique(c, i);
    }
  }

  lemma {:induction false} DistinctSize(c: Chain)
    requires Distinct(c)
    ensures |Keys(c)| == |c|
  {
    if c != [] {
      var d := c[..|c| - 1];
      DistinctSize(d);
      assert Keys(c) == Keys(d) + {c[|c| - 1].key};
    }
  }
}
