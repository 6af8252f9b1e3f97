/** kernel/kv_hash.c on the heap: an array of chain heads, nodes linked by next and pprev,
    value strings of their own, one lock per bucket, and an allocator that keeps a ledger. */
module KvHash {
  import opened KvTypes
  import opened Chains
  import opened Requests
  import opened SnapshotFile

  /** A kstrdup'ed string. */
  class CharBuf {
    const text: CText

    constructor (text: CText)
      ensures this.text == text
    {
      this.text := text;
    }
  }

  // What pprev points at: a bucket head, or the next field of an entry.
  datatype Slot = AtHead(b: nat) | After(e: HashEntry)

  /** struct kv_hash_entry, with its hlist_node. */
  class HashEntry {
    var key: u64
    var value: CharBuf
    var next: HashEntry?
    var pprev: Slot

    constructor (key: u64, value: CharBuf)
      ensures this.key == key && this.value == value
    {
      this.key, this.value := key, value;
      next, pprev := null, AtHead(0);
    }
  }

  /** kmalloc and kfree, with a ledger of what has been handed out and not freed. When
      reliable is false any allocation may fail. Only what is live may be freed, so nothing
      is freed twice. */
  class Kheap {
    ghost var entries: set<HashEntry>
    ghost var strings: set<CharBuf>
    ghost var heads: set<array<HashEntry?>>
    ghost var lockArrays: set<array<bool>>
    const reliable: bool

    constructor (reliable: bool)
      ensures entries == {} && strings == {} && heads == {} && lockArrays == {} && this.reliable == reliable
    {
      entries, strings, heads, lockArrays := {}, {}, {}, {};
      this.reliable := reliable;
    }

    method Grants() returns (ok: bool)
      ensures reliable ==> ok
    {
      ok := *;
      ok := ok || reliable;
    }

    method Kstrdup(text: CText) returns (p: CharBuf?)
      modifies `strings
      ensures p == null ==> strings == old(strings) && !reliable
      ensures p != null ==> fresh(p) && p.text == text && strings == old(strings) + {p}
    {
      p := null;
      var ok := Grants();
      if ok {
        p := new CharBuf(text);
        strings := strings + {p};
      }
    }

    method KmallocEntry(key: u64, value: CharBuf) returns (e: HashEntry?)
      modifies `entries
      ensures e == null ==> entries == old(entries) && !reliable
      ensures e != null ==> fresh(e) && e.key == key && e.value == value && entries == old(entries) + {e}
    {
      e := null;
      var ok := Grants();
      if ok {
        e := new HashEntry(key, value);
        entries := entries + {e};
      }
    }

    method KmallocHeads(n: nat) returns (a: array?<HashEntry?>)
      modifies `heads
      ensures a == null ==> heads == old(heads) && !reliable
      ensures a != null ==> fresh(a) && a.Length == n && heads == old(heads) + {a}
    {
      a := null;
      var ok := Grants();
      if ok {
        a := new HashEntry?[n];
        heads := heads + {a};
      }
    }

    method KmallocLocks(n: nat) returns (a: array?<bool>)
      modifies `lockArrays
      ensures a == null ==> lockArrays == old(lockArrays) && !reliable
      ensures a != null ==> fresh(a) && a.Length == n && lockArrays == old(lockArrays) + {a}
    {
      a := null;
      var ok := Grants();
      if ok {
        a := new bool[n];
        lockArrays := lockArrays + {a};
      }
    }

    method KfreeString(s: CharBuf)
      requires s in strings
      modifies `strings
      ensures strings == old(strings) - {s}
    {
      strings := strings - {s};
    }

    method KfreeEntry(e: HashEntry)
      requires e in entries
      modifies `entries
      ensures entries == old(entries) - {e}
    {
      entries := entries - {e};
    }

    method KfreeHeads(a: array<HashEntry?>)
      requires a in heads
      modifies `heads
      ensures heads == old(heads) - {a}
    {
      heads := heads - {a};
    }
  }

  function Pow2(n: nat): (r: nat)
    ensures r > 0
  {
    if n == 0 then 1 else 2 * Pow2(n - 1)
  }

  /** 1 << bits: a power of two, and 1024 for the bits of the module. */
  lemma {:induction false} Shifts(m: nat, n: nat)
    ensures Pow2(m + n) == Pow2(m) * Pow2(n)
    ensures Pow2(0) == 1 && Pow2(1) == 2 && Pow2(10) == 1024
  {
    if m > 0 {
      Shifts(m - 1, n);
      assert Pow2(m + n) == 2 * Pow2(m - 1 + n);
    }
    assert Pow2(5) == 32 && Pow2(10) == 32 * Pow2(5);
  }

  // ---- what hangs off each bucket, as sequences that do not depend on the heap ----

  /** No element stands at two positions. */
  ghost predicate Separate<T>(cs: seq<seq<T>>) {
    forall a, i, b, j | 0 <= a < |cs| && 0 <= i < |cs[a]| && 0 <= b < |cs| && 0 <= j < |cs[b]| ::
      cs[a][i] == cs[b][j] ==> a == b && i == j
  }

  /** es is exactly the set of elements. */
  ghost predicate FiledIn<T>(cs: seq<seq<T>>, es: set<T>) {
    && (forall b, i | 0 <= b < |cs| && 0 <= i < |cs[b]| :: cs[b][i] in es)
    && forall e | e in es :: exists b, i :: 0 <= b < |cs| && 0 <= i < |cs[b]| && cs[b][i] == e
  }

  lemma SeparatePush<T>(cs: seq<seq<T>>, es: set<T>, b: nat, e: T)
    requires FiledIn(cs, es) && Separate(cs) && b < |cs| && e !in es
    ensures Separate(cs[b := [e] + cs[b]])
  {
    var ds := cs[b := [e] + cs[b]];
    assert forall a, i | 0 <= a < |ds| && 0 <= i < |ds[a]| && (a != b || i > 0) ::
        ds[a][i] == cs[a][if a == b then i - 1 else i] && ds[a][i] in es;
  }

  lemma FiledPush<T>(cs: seq<seq<T>>, es: set<T>, b: nat, e: T)
    requires FiledIn(cs, es) && b < |cs|
    ensures FiledIn(cs[b := [e] + cs[b]], es + {e})
  {
    var ds := cs[b := [e] + cs[b]];
    assert ds[b][0] == e;
    forall x | x in es ensures exists a, i :: 0 <= a < |ds| && 0 <= i < |ds[a]| && ds[a][i] == x {
      var a, i :| 0 <= a < |cs| && 0 <= i < |cs[a]| && cs[a][i] == x;
      assert ds[a][if a == b then i + 1 else i] == x;
    }
    forall a, i | 0 <= a < |ds| && 0 <= i < |ds[a]| ensures ds[a][i] in es + {e} {
      assert a == b && i > 0 ==> ds[a][i] == cs[a][i - 1];
    }
  }

  lemma SeparateSplice<T>(cs: seq<seq<T>>, b: nat, i: nat)
    requires Separate(cs) && b < |cs| && i < |cs[b]|
    ensures Separate(cs[b := cs[b][..i] + cs[b][i + 1..]])
  {
    var ds := cs[b := cs[b][..i] + cs[b][i + 1..]];
    assert forall a, j | 0 <= a < |ds| && 0 <= j < |ds[a]| :: ds[a][j] == cs[a][if a == b && j >= i then j + 1 else j];
  }

  lemma FiledSplice<T>(cs: seq<seq<T>>, es: set<T>, b: nat, i: nat)
    requires FiledIn(cs, es) && Separate(cs) && b < |cs| && i < |cs[b]|
    ensures FiledIn(cs[b := cs[b][..i] + cs[b][i + 1..]], es - {cs[b][i]})
  {
    var ds := cs[b := cs[b][..i] + cs[b][i + 1..]];
    forall a, j | 0 <= a < |ds| && 0 <= j < |ds[a]| ensures ds[a][j] in es - {cs[b][i]} {
      assert ds[a][j] == cs[a][if a == b && j >= i then j + 1 else j];
    }
    forall x | x in es - {cs[b][i]} ensures exists a, j :: 0 <= a < |ds| && 0 <= j < |ds[a]| && ds[a][j] == x {
      var a, j :| 0 <= a < |cs| && 0 <= j < |cs[a]| && cs[a][j] == x;
      assert ds[a][if a == b && j > i then j - 1 else j] == x;
    }
  }

  lemma FiledReplace<T>(cs: seq<seq<T>>, es: set<T>, b: nat, i: nat, e: T)
    requires FiledIn(cs, es) && Separate(cs) && b < |cs| && i < |cs[b]| && e !in es
    ensures FiledIn(cs[b := cs[b][i := e]], es - {cs[b][i]} + {e}) && Separate(cs[b := cs[b][i := e]])
  {
    var ds := cs[b := cs[b][i := e]];
    assert ds[b][i] == e;
    forall x | x in es - {cs[b][i]} ensures exists a, j :: 0 <= a < |ds| && 0 <= j < |ds[a]| && ds[a][j] == x {
      var a, j :| 0 <= a < |cs| && 0 <= j < |cs[a]| && cs[a][j] == x;
      assert ds[a][j] == x;
    }
  }

  function Total<T>(cs: seq<seq<T>>): nat {
    if cs == [] then 0 else Total(cs[..|cs| - 1]) + |cs[|cs| - 1]|
  }

  ghost function Elements<T>(c: seq<T>): set<T> {
    set x | x in c
  }

  lemma {:induction false} ElementsSize<T>(c: seq<T>)
    requires forall i, j | 0 <= i < j < |c| :: c[i] != c[j]
    ensures |Elements(c)| == |c|
  {
    if c != [] {
      var front, x := c[..|c| - 1], c[|c| - 1];
      ElementsSize(front);
      assert Elements(c) == Elements(front) + {x};
    }
  }

  /** Dropping the last bucket and its elements. */
  lemma FiledFront<T>(cs: seq<seq<T>>, es: set<T>)
    requires FiledIn(cs, es) && Separate(cs) && cs != []
    ensures FiledIn(cs[..|cs| - 1], es - Elements(cs[|cs| - 1]))
    ensures forall x | x in cs[|cs| - 1] :: x in es
  {
    var n := |cs| - 1;
    var front, last := cs[..n], cs[n];
    forall b, i | 0 <= b < n && 0 <= i < |front[b]| ensures front[b][i] in es && front[b][i] !in last {
      assert cs[b][i] in es;
    }
    forall x | x in es && x !in last ensures exists b, i :: 0 <= b < n && 0 <= i < |front[b]| && front[b][i] == x {
      var b, i :| 0 <= b < |cs| && 0 <= i < |cs[b]| && cs[b][i] == x;
      assert front[b][i] == x;
    }
  }

  /** As many elements as places. */
  lemma {:induction false} FiledSize<T>(cs: seq<seq<T>>, es: set<T>)
    requires FiledIn(cs, es) && Separate(cs)
    ensures |es| == Total(cs)
  {
    if cs != [] {
      var ls := Elements(cs[|cs| - 1]);
      ElementsSize(cs[|cs| - 1]);
      FiledFront(cs, es);
      FiledSize(cs[..|cs| - 1], es - ls);
      assert es == (es - ls) + ls;
    } else {
      assert es == {};
    }
  }

  lemma {:induction false} FlattenTotal<T>(t: Table, cs: seq<seq<T>>)
    requires |t| == |cs| && forall b | 0 <= b < |t| :: |t[b]| == |cs[b]|
    ensures |Flatten(t)| == Total(cs)
  {
    if t != [] { FlattenTotal(t[..|t| - 1], cs[..|cs| - 1]); }
  }

  /** A table, its entries and its strings, by bucket and as sets, agree with each other: each
      entry and each string stands in one place. */
  ghost predicate Agree(g: Geometry, t: Table, cs: seq<seq<HashEntry>>, vs: seq<seq<CharBuf>>,
                        es: set<HashEntry>, ss: set<CharBuf>) {
    && WellFormed(g, t) && |cs| == |vs| == g.n
    && FiledIn(cs, es) && Separate(cs)
    && FiledIn(vs, ss) && Separate(vs)
  }

  lemma AgreeReplace(g: Geometry, t: Table, cs: seq<seq<HashEntry>>, vs: seq<seq<CharBuf>>,
                     es: set<HashEntry>, ss: set<CharBuf>, b: nat, i: nat, s: CharBuf)
    requires Agree(g, t, cs, vs, es, ss) && b < g.n && i < |t[b]| == |vs[b]| && s !in ss
    ensures Agree(g, t[b := t[b][i := Entry(t[b][i].key, s.text)]], cs, vs[b := vs[b][i := s]],
                  es, ss - {vs[b][i]} + {s})
  {
    FiledReplace(vs, ss, b, i, s);
    FindUnique(t[b], i);
    assert Placed(g, t[b], b);
    PutRefines(g, t, t[b][i].key, s.text);
  }

  lemma AgreePush(g: Geometry, t: Table, cs: seq<seq<HashEntry>>, vs: seq<seq<CharBuf>>,
                  es: set<HashEntry>, ss: set<CharBuf>, b: nat, k: u64, e: HashEntry, s: CharBuf)
    requires Agree(g, t, cs, vs, es, ss) && b == g.hash(k) && IndexOf(t[b], k) == |t[b]| && e !in es && s !in ss
    ensures Agree(g, t[b := [Entry(k, s.text)] + t[b]], cs[b := [e] + cs[b]], vs[b := [s] + vs[b]], es + {e}, ss + {s})
  {
    FiledPush(cs, es, b, e);
    SeparatePush(cs, es, b, e);
    FiledPush(vs, ss, b, s);
    SeparatePush(vs, ss, b, s);
    PutRefines(g, t, k, s.text);
  }

  lemma AgreeSplice(g: Geometry, t: Table, cs: seq<seq<HashEntry>>, vs: seq<seq<CharBuf>>,
                    es: set<HashEntry>, ss: set<CharBuf>, b: nat, i: nat)
    requires Agree(g, t, cs, vs, es, ss) && b < g.n && i < |t[b]| == |cs[b]| == |vs[b]|
    ensures Agree(g, t[b := t[b][..i] + t[b][i + 1..]], cs[b := cs[b][..i] + cs[b][i + 1..]],
                  vs[b := vs[b][..i] + vs[b][i + 1..]], es - {cs[b][i]}, ss - {vs[b][i]})
  {
    FiledSplice(cs, es, b, i);
    SeparateSplice(cs, b, i);
    FiledSplice(vs, ss, b, i);
    SeparateSplice(vs, b, i);
    FindUnique(t[b], i);
    assert Placed(g, t[b], b);
    DeleteRefines(g, t, t[b][i].key);
  }

  // ---- a chain on the heap ----

  ghost function Just(e: HashEntry?): set<HashEntry> {
    if e == null then {} else {e}
  }

  function NextOf(c: seq<HashEntry>, i: nat): HashEntry? {
    if i < |c| then c[i] else null
  }

  /** Entry e holds the string v and the pair x. */
  ghost predicate Holds(e: HashEntry, v: CharBuf, x: Entry)
    reads e
  {
    e.value == v && x == Entry(e.key, v.text)
  }

  ghost predicate EntryAt(c: seq<HashEntry>, v: seq<CharBuf>, t: Chain, b: nat, i: nat)
    requires i < |c| == |v| == |t|
    reads c[i]
  {
    && c[i].next == NextOf(c, i + 1)
    && c[i].pprev == (if i == 0 then AtHead(b) else After(c[i - 1]))
    && Holds(c[i], v[i], t[i])
  }

  /** The entries c are linked behind head in this order; they own the strings v and hold the pairs t. */
  ghost predicate ChainAt(head: HashEntry?, c: seq<HashEntry>, v: seq<CharBuf>, t: Chain, b: nat)
    reads c
  {
    && head == NextOf(c, 0) && |c| == |v| == |t|
    && forall i | 0 <= i < |c| :: EntryAt(c, v, t, b, i)
  }

  /** The links of a chain from which position i is being taken out. */
  ghost predicate SplicedEntry(c: seq<HashEntry>, v: seq<CharBuf>, t: Chain, b: nat, i: nat, j: nat)
    requires i < |c| == |v| == |t| && j < |c| && j != i
    reads c[j]
  {
    && c[j].next == NextOf(c, if j + 1 == i then i + 1 else j + 1)
    && c[j].pprev == (if j == 0 || (j == 1 && i == 0) then AtHead(b) else After(c[if j - 1 == i then i - 1 else j - 1]))
    && Holds(c[j], v[j], t[j])
  }

  lemma SplicedChain(head: HashEntry?, c: seq<HashEntry>, v: seq<CharBuf>, t: Chain, b: nat, i: nat)
    requires i < |c| == |v| == |t| && head == NextOf(c, if i == 0 then 1 else 0)
    requires forall j | 0 <= j < |c| && j != i :: SplicedEntry(c, v, t, b, i, j)
    ensures ChainAt(head, c[..i] + c[i + 1..], v[..i] + v[i + 1..], t[..i] + t[i + 1..], b)
  {
    var d, w, u := c[..i] + c[i + 1..], v[..i] + v[i + 1..], t[..i] + t[i + 1..];
    forall j | 0 <= j < |d| ensures EntryAt(d, w, u, b, j) {
      assert SplicedEntry(c, v, t, b, i, if j < i then j else j + 1);
    }
  }

  /** The links of a chain at whose head e is being put. */
  ghost predicate PushedEntry(e: HashEntry, c: seq<HashEntry>, v: seq<CharBuf>, t: Chain, j: nat)
    requires j < |c| == |v| == |t|
    reads c[j]
  {
    && c[j].next == NextOf(c, j + 1)
    && c[j].pprev == After(if j == 0 then e else c[j - 1])
    && Holds(c[j], v[j], t[j])
  }

  lemma PushedChain(e: HashEntry, c: seq<HashEntry>, v: seq<CharBuf>, t: Chain, b: nat)
    requires |c| == |v| == |t| && e.next == NextOf(c, 0) && e.pprev == AtHead(b)
    requires forall j | 0 <= j < |c| :: PushedEntry(e, c, v, t, j)
    ensures ChainAt(e, [e] + c, [e.value] + v, [Entry(e.key, e.value.text)] + t, b)
  {
    var d, w, u := [e] + c, [e.value] + v, [Entry(e.key, e.value.text)] + t;
    forall j | 0 <= j < |d| ensures EntryAt(d, w, u, b, j) {
      if j > 0 { assert PushedEntry(e, c, v, t, j - 1); }
    }
  }

  function Min(a: nat, b: nat): (m: nat)
    ensures m <= a && m <= b && (m == a || m == b)
  {
    if a < b then a else b
  }

  lemma WrapStep(x: int, y: int)
    ensures WrapInt(WrapInt(x) + y) == WrapInt(x + y)
  {
  }

  /** now is the buffer first with the first n records of c written from position start on. */
  ghost predicate Written(first: seq<Record>, now: seq<Record>, start: nat, c: Chain, n: nat) {
    && n <= |c| && start + n <= |first|
    && now == first[..start] + RecordsOf(c[..n]) + first[start + n..]
  }

  lemma WrittenNone(first: seq<Record>, start: nat, c: Chain)
    requires start <= |first|
    ensures Written(first, first, start, c, 0)
  {
    assert RecordsOf(c[..0]) == [];
  }

  /** struct hash_table. The ghost fields give its value as a table, the entries and strings
      that hang off each bucket, and the same as sets. */
  class HashTable {
    const g: Geometry
    const kheap: Kheap
    var bits: nat
    var buckets: array?<HashEntry?>
    var bucketLocks: array?<bool>
    ghost var table: Table
    ghost var chains: seq<seq<HashEntry>>
    ghost var values: seq<seq<CharBuf>>
    ghost var entries: set<HashEntry>
    ghost var strings: set<CharBuf>

    constructor (g: Geometry, kheap: Kheap)
      ensures this.g == g && this.kheap == kheap && buckets == null && bucketLocks == null
      ensures entries == {} && strings == {}
    {
      this.g, this.kheap := g, kheap;
      bits, buckets, bucketLocks := 0, null, null;
      table, chains, values, entries, strings := [], [], [], {}, {};
    }

    // ---- representation invariant ----

    ghost predicate Books()
      reads `table, `chains, `values, `entries, `strings
    {
      Agree(g, table, chains, values, entries, strings)
    }

    ghost predicate Linked()
      reads `buckets, `bits, `table, `chains, `values, `entries, `strings, buckets, entries
    {
      && Books() && buckets != null && buckets.Length == g.n == Pow2(bits)
      && forall b | 0 <= b < |chains| :: ChainAt(buckets[b], chains[b], values[b], table[b], b)
    }

    /** The ledger: exactly the two arrays, the linked entries, and their strings, of which
        there is one for each entry; extra is allocated but not linked. */
    ghost predicate Accounted(extra: set<CharBuf>)
      reads `buckets, `bucketLocks, `entries, `strings, kheap
    {
      && buckets != null && bucketLocks != null && kheap.heads == {buckets} && kheap.lockArrays == {bucketLocks}
      && kheap.entries == entries && kheap.strings == strings + extra
    }

    ghost predicate Unlocked()
      reads `bucketLocks, bucketLocks
    {
      bucketLocks != null && bucketLocks.Length == g.n && forall b | 0 <= b < g.n :: !bucketLocks[b]
    }

    ghost predicate Valid()
      reads this, kheap, buckets, bucketLocks, entries
    {
      Linked() && Accounted({}) && Unlocked()
    }

    /** Conservation: outside a call the live strings are in bijection with the live entries. */
    lemma OneStringEach()
      requires Valid()
      ensures forall e | e in kheap.entries :: e.value in kheap.strings
      ensures forall e, f | e in kheap.entries && f in kheap.entries && e.value == f.value :: e == f
      ensures forall s | s in kheap.strings :: exists e :: e in kheap.entries && e.value == s
    {
      forall b, i | 0 <= b < |chains| && 0 <= i < |chains[b]|
        ensures |chains[b]| == |values[b]| && chains[b][i].value == values[b][i]
      {
        assert EntryAt(chains[b], values[b], table[b], b, i);
      }
      forall b | 0 <= b < |chains| ensures |chains[b]| == |values[b]| {
        assert ChainAt(buckets[b], chains[b], values[b], table[b], b);
      }
    }

    /** Every live entry is linked, and there is one for each pair in the table. */
    lemma AsManyAsPairs()
      requires Valid()
      ensures |kheap.entries| == |kheap.strings| == |Flatten(table)| == |ToMap(g, table)|
    {
      forall b | 0 <= b < |chains| ensures |chains[b]| == |values[b]| == |table[b]| {
        assert ChainAt(buckets[b], chains[b], values[b], table[b], b);
      }
      FiledSize(chains, entries);
      FiledSize(values, strings);
      FlattenTotal(table, chains);
      FlattenTotal(table, values);
      FlattenIsMap(g, table);
    }

    // ---- critical sections ----

    method SpinLock(b: nat)
      requires bucketLocks != null && b < bucketLocks.Length && !bucketLocks[b]
      modifies bucketLocks
      ensures bucketLocks[b]
      ensures forall a | 0 <= a < bucketLocks.Length && a != b :: bucketLocks[a] == old(bucketLocks[a])
    {
      bucketLocks[b] := true;
    }

    method SpinUnlock(b: nat)
      requires bucketLocks != null && b < bucketLocks.Length && bucketLocks[b]
      modifies bucketLocks
      ensures !bucketLocks[b]
      ensures forall a | 0 <= a < bucketLocks.Length && a != b :: bucketLocks[a] == old(bucketLocks[a])
    {
      bucketLocks[b] := false;
    }

    // ---- the three writes to a chain ----

    /** What the invariant knows of one position. */
    lemma At(b: nat, i: nat)
      requires Linked() && b < |chains| && i < |chains[b]|
      ensures |chains[b]| == |values[b]| == |table[b]| && EntryAt(chains[b], values[b], table[b], b, i)
      ensures buckets[b] == chains[b][0]
      ensures g.hash(chains[b][i].key) == b && chains[b][i] in entries && values[b][i] in strings
    {
      assert ChainAt(buckets[b], chains[b], values[b], table[b], b);
      assert Placed(g, table[b], b);
    }

    /** The entries of chain b differ from each other and from those of every other chain. */
    lemma Apart(b: nat)
      requires Books() && b < |chains|
      ensures forall i, j | 0 <= i < j < |chains[b]| :: chains[b][i] != chains[b][j]
      ensures forall a, i | 0 <= a < |chains| && a != b && 0 <= i < |chains[a]| :: chains[a][i] !in chains[b]
    {
    }

    /** Chains whose entries and head are untouched stay linked. */
    twostate lemma OthersLinked(b: nat)
      requires old(Linked()) && chains == old(chains) && table == old(table) && values == old(values)
      requires buckets != null && buckets == old(buckets)
      requires forall a | 0 <= a < |chains| && a != b :: buckets[a] == old(buckets[a])
      requires forall a, j | 0 <= a < |chains| && a != b && 0 <= j < |chains[a]| ::
                 var e := chains[a][j];
                 e.next == old(e.next) && e.pprev == old(e.pprev) && e.key == old(e.key) && e.value == old(e.value)
      ensures forall a | 0 <= a < |chains| && a != b :: ChainAt(buckets[a], chains[a], values[a], table[a], a)
    {
      forall a | 0 <= a < |chains| && a != b ensures ChainAt(buckets[a], chains[a], values[a], table[a], a) {
        assert old(ChainAt(buckets[a], chains[a], values[a], table[a], a));
        forall j | 0 <= j < |chains[a]| ensures EntryAt(chains[a], values[a], table[a], a, j) {
          assert old(EntryAt(chains[a], values[a], table[a], a, j));
        }
      }
    }

    /** The ghost fields catch up with a change of the chains. */
    ghost method Adopt(t: Table, cs: seq<seq<HashEntry>>, vs: seq<seq<CharBuf>>, es: set<HashEntry>, ss: set<CharBuf>)
      requires Agree(g, t, cs, vs, es, ss) && buckets != null && buckets.Length == g.n == Pow2(bits)
      requires forall b | 0 <= b < |cs| :: ChainAt(buckets[b], cs[b], vs[b], t[b], b)
      modifies `table, `chains, `values, `entries, `strings
      ensures Linked()
      ensures table == t && chains == cs && values == vs && entries == es && strings == ss
    {
      table, chains, values, entries, strings := t, cs, vs, es, ss;
      assert Books();
      forall b | 0 <= b < |cs| ensures ChainAt(buckets[b], cs[b], vs[b], t[b], b) {
        assert old(ChainAt(buckets[b], cs[b], vs[b], t[b], b));
      }
    }

    /** e->value = newstr */
    method StoreValue(ghost b: nat, ghost i: nat, e: HashEntry, newstr: CharBuf)
      requires Linked() && b < |chains| && i < |chains[b]| && chains[b][i] == e
      modifies e`value
      ensures e.value == newstr && i < |values[b]| && i < |table[b]|
      ensures ChainAt(buckets[b], chains[b], values[b][i := newstr], table[b][i := Entry(e.key, newstr.text)], b)
      ensures forall a | 0 <= a < |chains| && a != b :: ChainAt(buckets[a], chains[a], values[a], table[a], a)
    {
      At(b, i);
      Apart(b);
      ghost var c, v, t := chains[b], values[b][i := newstr], table[b][i := Entry(e.key, newstr.text)];
      e.value := newstr;
      OthersLinked(b);
      assert old(ChainAt(buckets[b], chains[b], values[b], table[b], b));
      forall j | 0 <= j < |c| ensures EntryAt(c, v, t, b, j) {
        assert old(EntryAt(c, values[b], table[b], b, j));
      }
    }

    method Replace(ghost b: nat, ghost i: nat, e: HashEntry, newstr: CharBuf)
      requires Linked() && b < |chains| && i < |chains[b]| && chains[b][i] == e && newstr !in strings
      modifies e`value, `table, `chains, `values, `entries, `strings
      ensures Linked() && strings == old(strings) - {old(e.value)} + {newstr}
      ensures entries == old(entries) && chains == old(chains)
      ensures i < |old(table)[b]|
      ensures table == old(table)[b := old(table)[b][i := Entry(e.key, newstr.text)]]
    {
      At(b, i);
      AgreeReplace(g, table, chains, values, entries, strings, b, i, newstr);
      StoreValue(b, i, e, newstr);
      Adopt(table[b := table[b][i := Entry(e.key, newstr.text)]], chains, values[b := values[b][i := newstr]],
            entries, strings - {old(e.value)} + {newstr});
    }

    /** hlist_add_head(&e->node, &ht->buckets[b]) */
    method HlistAddHead(b: nat, e: HashEntry)
      requires buckets != null && b < buckets.Length && buckets[b] != e
      modifies buckets, Just(buckets[b])`pprev, e`next, e`pprev
      ensures buckets[b] == e && e.next == old(buckets[b]) && e.pprev == AtHead(b)
      ensures e.next != null ==> e.next.pprev == After(e)
      ensures forall a | 0 <= a < buckets.Length && a != b :: buckets[a] == old(buckets[a])
    {
      var first := buckets[b];
      e.next := first;
      if first != null {
        first.pprev := After(e);
      }
      buckets[b] := e;
      e.pprev := AtHead(b);
    }

    method PushHead(b: nat, e: HashEntry)
      requires Linked() && b < |chains| && e !in entries
      modifies buckets, entries`pprev, e`next, e`pprev
      ensures ChainAt(buckets[b], [e] + chains[b], [e.value] + values[b], [Entry(e.key, e.value.text)] + table[b], b)
      ensures forall a | 0 <= a < |chains| && a != b :: ChainAt(buckets[a], chains[a], values[a], table[a], a)
    {
      ghost var c, v, t := chains[b], values[b], table[b];
      Apart(b);
      assert ChainAt(buckets[b], c, v, t, b);
      HlistAddHead(b, e);
      forall j | 0 <= j < |c| ensures PushedEntry(e, c, v, t, j) {
        assert old(EntryAt(c, v, t, b, j));
      }
      PushedChain(e, c, v, t, b);
      OthersLinked(b);
    }

    method LinkHead(b: nat, e: HashEntry)
      requires Linked() && b < |chains| && g.hash(e.key) == b && IndexOf(table[b], e.key) == |table[b]|
      requires e !in entries && e.value !in strings
      modifies buckets, entries`pprev, e`next, e`pprev, `table, `chains, `values, `entries, `strings
      ensures Linked() && entries == old(entries) + {e} && strings == old(strings) + {e.value}
      ensures table == old(table)[b := [Entry(e.key, e.value.text)] + old(table)[b]]
    {
      AgreePush(g, table, chains, values, entries, strings, b, e.key, e, e.value);
      PushHead(b, e);
      Adopt(table[b := [Entry(e.key, e.value.text)] + table[b]], chains[b := [e] + chains[b]],
            values[b := [e.value] + values[b]], entries + {e}, strings + {e.value});
    }

    /** The links of chain at.0 after hlist_del has run on its position at.1. */
    twostate lemma Detached(at: (nat, nat))
      requires chains == old(chains) && table == old(table) && values == old(values)
      requires old(buckets != null && at.0 < buckets.Length) && buckets == old(buckets)
      requires old(at.0 < |chains| == |values| == |table| && at.1 < |chains[at.0]|)
      requires old(ChainAt(buckets[at.0], chains[at.0], values[at.0], table[at.0], at.0))
      requires forall j | 0 <= j < |chains[at.0]| :: chains[at.0][j].key == old(chains[at.0][j].key)
      requires forall j | 0 <= j < |chains[at.0]| :: chains[at.0][j].value == old(chains[at.0][j].value)
      requires forall j | 0 <= j < |chains[at.0]| && j + 1 != at.1 :: chains[at.0][j].next == old(chains[at.0][j].next)
      requires forall j | 0 <= j < |chains[at.0]| && j != at.1 + 1 ::
                 chains[at.0][j].pprev == old(chains[at.0][j].pprev)
      requires at.1 > 0 ==> chains[at.0][at.1 - 1].next == old(chains[at.0][at.1].next)
      requires at.1 + 1 < |chains[at.0]| ==> chains[at.0][at.1 + 1].pprev == old(chains[at.0][at.1].pprev)
      requires buckets[at.0] == if at.1 == 0 then old(chains[at.0][0].next) else old(buckets[at.0])
      ensures ChainAt(buckets[at.0], chains[at.0][..at.1] + chains[at.0][at.1 + 1..],
                      values[at.0][..at.1] + values[at.0][at.1 + 1..],
                      table[at.0][..at.1] + table[at.0][at.1 + 1..], at.0)
    {
      var (b, i) := at;
      var c, v, t := chains[b], values[b], table[b];
      assert old(ChainAt(buckets[b], c, v, t, b));
      assert old(EntryAt(c, v, t, b, i));
      forall j | 0 <= j < |c| && j != i ensures SplicedEntry(c, v, t, b, i, j) {
        assert old(EntryAt(c, v, t, b, j));
      }
      SplicedChain(buckets[b], c, v, t, b, i);
    }

    /** Bucket b holds a chain in which no entry stands twice. */
    ghost predicate ChainIn(b: nat)
      reads `buckets, `table, `chains, `values, buckets, if b < |chains| then chains[b] else []
    {
      && buckets != null && b < buckets.Length && b < |chains| == |values| == |table|
      && ChainAt(buckets[b], chains[b], values[b], table[b], b)
      && forall i, j | 0 <= i < j < |chains[b]| :: chains[b][i] != chains[b][j]
    }

    /** hlist_del(&e->node), when pprev is the bucket head. */
    method DelAtHead(b: nat, e: HashEntry)
      requires ChainIn(b) && 0 < |chains[b]| && chains[b][0] == e
      modifies buckets, Just(e.next)`pprev
      ensures ChainAt(buckets[b], chains[b][..0] + chains[b][1..], values[b][..0] + values[b][1..],
                      table[b][..0] + table[b][1..], b)
      ensures forall a | 0 <= a < buckets.Length && a != b :: buckets[a] == old(buckets[a])
    {
      assert EntryAt(chains[b], values[b], table[b], b, 0);
      buckets[b] := e.next;
      if e.next != null {
        e.next.pprev := e.pprev;
      }
      Detached((b, 0));
    }

    /** hlist_del(&e->node), when pprev is the next field of p. */
    method DelAfter(ghost b: nat, ghost i: nat, e: HashEntry, p: HashEntry)
      requires ChainIn(b) && 0 < i < |chains[b]| && chains[b][i] == e && chains[b][i - 1] == p
      modifies p`next, Just(e.next)`pprev
      ensures ChainAt(buckets[b], chains[b][..i] + chains[b][i + 1..], values[b][..i] + values[b][i + 1..],
                      table[b][..i] + table[b][i + 1..], b)
    {
      assert EntryAt(chains[b], values[b], table[b], b, i) && EntryAt(chains[b], values[b], table[b], b, i - 1);
      p.next := e.next;
      if e.next != null {
        e.next.pprev := e.pprev;
      }
      Detached((b, i));
    }

    /** What the invariant knows of a position and its neighbours. */
    lemma Site(b: nat, i: nat)
      requires Linked() && b < |chains| && i < |chains[b]|
      ensures ChainIn(b) && |chains[b]| == |values[b]| == |table[b]|
      ensures EntryAt(chains[b], values[b], table[b], b, i) && NextOf(chains[b], i + 1) == chains[b][i].next
      ensures i > 0 ==> chains[b][i - 1] in entries && chains[b][i - 1] in chains[b]
      ensures chains[b][i].next != null ==> chains[b][i].next in entries && chains[b][i].next in chains[b]
      ensures forall a, j | 0 <= a < |chains| && a != b && 0 <= j < |chains[a]| :: chains[a][j] !in chains[b]
    {
      At(b, i);
      Apart(b);
      if i + 1 < |chains[b]| { At(b, i + 1); }
    }

    /** hlist_del(&e->node) */
    method HlistDel(ghost b: nat, ghost i: nat, e: HashEntry)
      requires Linked() && b < |chains| && i < |chains[b]| && chains[b][i] == e
      modifies buckets, entries`next, entries`pprev
      ensures ChainAt(buckets[b], chains[b][..i] + chains[b][i + 1..], values[b][..i] + values[b][i + 1..],
                      table[b][..i] + table[b][i + 1..], b)
      ensures forall a | 0 <= a < |chains| && a != b :: ChainAt(buckets[a], chains[a], values[a], table[a], a)
    {
      Site(b, i);
      match e.pprev {
        case AtHead(a) => DelAtHead(a, e);
        case After(p) => DelAfter(b, i, e, p);
      }
      OthersLinked(b);
    }

    method Unlink(ghost b: nat, ghost i: nat, e: HashEntry)
      requires Linked() && b < |chains| && i < |chains[b]| && chains[b][i] == e
      modifies buckets, entries`next, entries`pprev, `table, `chains, `values, `entries, `strings
      ensures Linked() && entries == old(entries) - {e} && strings == old(strings) - {e.value}
      ensures table == old(table)[b := old(table)[b][..i] + old(table)[b][i + 1..]]
      ensures chains == old(chains)[b := old(chains)[b][..i] + old(chains)[b][i + 1..]]
    {
      At(b, i);
      AgreeSplice(g, table, chains, values, entries, strings, b, i);
      HlistDel(b, i, e);
      Adopt(table[b := table[b][..i] + table[b][i + 1..]], chains[b := chains[b][..i] + chains[b][i + 1..]],
            values[b := values[b][..i] + values[b][i + 1..]], entries - {e}, strings - {e.value});
    }

    // ---- operations ----

    /** The walk every keyed operation makes: hlist_for_each_entry, stopping at the key. */
    method FindEntry(b: nat, key: u64) returns (e: HashEntry?, ghost i: nat)
      requires Linked() && b < |chains|
      ensures i == IndexOf(table[b], key) && |table[b]| == |chains[b]| && e == NextOf(chains[b], i)
      ensures e != null ==> e.key == key
    {
      assert ChainAt(buckets[b], chains[b], values[b], table[b], b);
      e, i := buckets[b], 0;
      while e != null && e.key != key
        invariant i <= |chains[b]| && e == NextOf(chains[b], i)
        invariant forall j | 0 <= j < i :: table[b][j].key != key
        decreases |chains[b]| - i
      {
        assert EntryAt(chains[b], values[b], table[b], b, i);
        e, i := e.next, i + 1;
      }
      if e != null { assert EntryAt(chains[b], values[b], table[b], b, i); }
    }

    /** kv_hash_init. */
    method Init(bits: nat) returns (ret: int)
      requires bits < 32 && g.n == Pow2(bits)
      requires kheap.entries == {} && kheap.strings == {} && kheap.heads == {} && kheap.lockArrays == {}
      modifies this, kheap
      ensures ret == 0 || ret == -ENOMEM
      ensures ret == 0 ==> fresh(buckets) && fresh(bucketLocks) && entries == {} && Valid() && table == EmptyTable(g)
      ensures ret == 0 ==> this.bits == bits && buckets.Length == bucketLocks.Length == Pow2(bits)
      ensures ret == -ENOMEM ==> buckets == null && !kheap.reliable && kheap.heads == {} && kheap.lockArrays == {}
      ensures kheap.entries == {} && kheap.strings == {}
    {
      this.bits := bits;
      buckets := kheap.KmallocHeads(Pow2(bits));
      if buckets == null {
        this.bits := 0;
        return -ENOMEM;
      }
      bucketLocks := kheap.KmallocLocks(Pow2(bits));
      if bucketLocks == null {
        kheap.KfreeHeads(buckets);
        buckets := null;
        this.bits := 0;
        return -ENOMEM;
      }
      for i := 0 to Pow2(bits)
        modifies buckets, bucketLocks
        invariant forall b | 0 <= b < i :: buckets[b] == null && !bucketLocks[b]
      {
        buckets[i], bucketLocks[i] := null, false;  // INIT_HLIST_HEAD, spin_lock_init
      }
      SetEmpty();
      return 0;
    }

    /** An array of empty heads, as the ghost fields see it. */
    ghost method SetEmpty()
      requires buckets != null && buckets.Length == g.n == Pow2(bits) && forall b | 0 <= b < g.n :: buckets[b] == null
      modifies `table, `chains, `values, `entries, `strings
      ensures Linked() && table == EmptyTable(g) && entries == {} && strings == {}
    {
      table, chains, values := EmptyTable(g), seq(g.n, b => []), seq(g.n, b => []);
      entries, strings := {}, {};
    }

    /** kfree(e->value); e->value = newstr */
    method Overwrite(ghost b: nat, ghost i: nat, e: HashEntry, newstr: CharBuf)
      requires Linked() && Accounted({newstr}) && newstr !in strings
      requires b < |chains| && i < |chains[b]| && chains[b][i] == e
      modifies kheap`strings, e`value, `table, `chains, `values, `entries, `strings
      ensures Linked() && Accounted({}) && entries == old(entries) && b < |old(table)| && i < |old(table)[b]|
      ensures table == old(table)[b := old(table)[b][i := Entry(e.key, newstr.text)]]
    {
      At(b, i);
      kheap.KfreeString(e.value);
      Replace(b, i, e, newstr);
    }

    /** kmalloc an entry for newstr and link it; on failure kfree(newstr). */
    method InsertNew(b: nat, key: u64, newstr: CharBuf) returns (ok: bool)
      requires Linked() && Accounted({newstr}) && newstr !in strings
      requires b == g.hash(key) && IndexOf(table[b], key) == |table[b]|
      modifies kheap, buckets, entries`pprev, `table, `chains, `values, `entries, `strings
      ensures Linked() && Accounted({}) && fresh(entries - old(entries))
      ensures ok ==> table == old(table)[b := [Entry(key, newstr.text)] + old(table)[b]]
      ensures !ok ==> table == old(table) && entries == old(entries) && strings == old(strings) && !kheap.reliable
    {
      var e := kheap.KmallocEntry(key, newstr);
      if e == null {
        kheap.KfreeString(newstr);
        return false;
      }
      LinkHead(b, e);
      return true;
    }

    /** hlist_del(&e->node); kfree(e->value); kfree(e) */
    method UnlinkAndFree(ghost b: nat, ghost i: nat, e: HashEntry)
      requires Linked() && Accounted({}) && b < |chains| && i < |chains[b]| && chains[b][i] == e
      modifies kheap, buckets, entries`next, entries`pprev, `table, `chains, `values, `entries, `strings
      ensures Linked() && Accounted({}) && entries <= old(entries) && i < |old(table)[b]|
      ensures table == old(table)[b := old(table)[b][..i] + old(table)[b][i + 1..]]
      ensures chains == old(chains)[b := old(chains)[b][..i] + old(chains)[b][i + 1..]]
    {
      At(b, i);
      Unlink(b, i, e);
      kheap.KfreeString(e.value);
      kheap.KfreeEntry(e);
    }

    /** Inside the lock: replace the value of the key's entry, or link a new one. */
    method AddLocked(bucket: nat, key: u64, newstr: CharBuf) returns (ret: int)
      requires Linked() && Accounted({newstr}) && newstr !in strings && bucket == g.hash(key)
      modifies kheap, buckets, entries, `table, `chains, `values, `entries, `strings
      ensures Linked() && Accounted({}) && fresh(entries - old(entries)) && (ret == 0 || ret == -ENOMEM)
      ensures ret == 0 ==> table == Put(g, old(table), key, newstr.text)
      ensures ret != 0 ==> table == old(table) && entries == old(entries) && strings == old(strings) && !kheap.reliable
    {
      var e, i := FindEntry(bucket, key);
      if e != null {
        At(bucket, i);
        Overwrite(bucket, i, e, newstr);
        return 0;
      }
      var ok := InsertNew(bucket, key, newstr);
      return if ok then 0 else -ENOMEM;
    }

    method RemoveLocked(bucket: nat, key: u64) returns (ret: int)
      requires Linked() && Accounted({}) && bucket == g.hash(key)
      modifies kheap, buckets, entries, `table, `chains, `values, `entries, `strings
      ensures Linked() && Accounted({}) && entries <= old(entries) && table == Delete(g, old(table), key)
      ensures ret == if Get(g, old(table), key).Some? then 0 else -ENOENT
    {
      var e, i := FindEntry(bucket, key);
      if e == null { return -ENOENT; }
      UnlinkAndFree(bucket, i, e);
      return 0;
    }

    /** kv_hash_add. On failure nothing has changed and nothing is leaked. */
    method Add(key: u64, value: CText) returns (ret: int)
      requires buckets != null ==> Valid()
      modifies this, kheap, buckets, bucketLocks, entries
      ensures buckets == old(buckets) && bucketLocks == old(bucketLocks)
      ensures buckets == null ==> ret == -EINVAL && kheap.strings == old(kheap.strings)
      ensures buckets != null ==> Valid() && fresh(entries - old(entries)) && (ret == 0 || ret == -ENOMEM)
      ensures ret == 0 ==> table == Put(g, old(table), key, value)
      ensures ret != 0 ==> table == old(table) && entries == old(entries) && strings == old(strings)
      ensures ret == -ENOMEM ==> !kheap.reliable
    {
      if buckets == null { return -EINVAL; }
      var newstr := kheap.Kstrdup(value);
      if newstr == null { return -ENOMEM; }
      ret := AddString(key, newstr);
    }

    /** The critical section of kv_hash_add. */
    method AddString(key: u64, newstr: CharBuf) returns (ret: int)
      requires Linked() && Accounted({newstr}) && Unlocked() && newstr !in strings
      modifies kheap, buckets, bucketLocks, entries, `table, `chains, `values, `entries, `strings
      ensures Valid() && fresh(entries - old(entries)) && (ret == 0 || ret == -ENOMEM)
      ensures ret == 0 ==> table == Put(g, old(table), key, newstr.text)
      ensures ret != 0 ==> table == old(table) && entries == old(entries) && strings == old(strings) && !kheap.reliable
    {
      var bucket := g.hash(key);
      SpinLock(bucket);
      ret := AddLocked(bucket, key, newstr);
      SpinUnlock(bucket);
    }

    /** kv_hash_remove. */
    method Remove(key: u64) returns (ret: int)
      requires buckets != null ==> Valid()
      modifies this, kheap, buckets, bucketLocks, entries
      ensures buckets == old(buckets) && bucketLocks == old(bucketLocks)
      ensures buckets == null ==> ret == -EINVAL
      ensures buckets != null ==> Valid() && entries <= old(entries) && table == Delete(g, old(table), key)
      ensures buckets != null ==> ret == if Get(g, old(table), key).Some? then 0 else -ENOENT
    {
      if buckets == null { return -EINVAL; }
      var bucket := g.hash(key);
      SpinLock(bucket);
      ret := RemoveLocked(bucket, key);
      SpinUnlock(bucket);
    }

    method LookupLocked(bucket: nat, key: u64, outBuf: array<Byte>, outLen: nat) returns (ret: int)
      requires Linked() && bucket == g.hash(key) && outLen <= outBuf.Length
      modifies outBuf
      ensures Linked()
      ensures match Get(g, table, key)
              case None => ret == -ENOENT
              case Some(v) => ret == if |v| + 1 > outLen then -ENOSPC else |v|
      ensures ret >= 0 ==> outBuf[..] == Get(g, table, key).value + [NUL] + old(outBuf[..])[ret + 1..]
      ensures ret < 0 ==> outBuf[..] == old(outBuf[..])
    {
      var e, i := FindEntry(bucket, key);
      if e == null { return -ENOENT; }
      At(bucket, i);
      var len := |e.value.text|;
      if len + 1 > outLen { return -ENOSPC; }
      CopyOut(e.value.text, outBuf);
      return len;
    }

    /** kv_hash_lookup: the value and its terminator are copied to the caller's buffer, and
        nothing beyond them is written. */
    method Lookup(key: u64, outBuf: array<Byte>, outLen: nat) returns (ret: int)
      requires buckets != null ==> Valid()
      requires outLen <= outBuf.Length
      modifies bucketLocks, outBuf
      ensures buckets != null ==> Valid()
      ensures buckets == null || outLen == 0 ==> ret == -EINVAL
      ensures buckets != null && outLen > 0 ==>
                match Get(g, table, key)
                case None => ret == -ENOENT
                case Some(v) => ret == if |v| + 1 > outLen then -ENOSPC else |v|
      ensures ret >= 0 ==> outBuf[..] == Get(g, table, key).value + [NUL] + old(outBuf[..])[ret + 1..]
      ensures ret < 0 ==> outBuf[..] == old(outBuf[..])
    {
      if buckets == null || outLen == 0 { return -EINVAL; }
      var bucket := g.hash(key);
      SpinLock(bucket);
      ret := LookupLocked(bucket, key, outBuf, outLen);
      SpinUnlock(bucket);
    }

    /** memcpy(out_buf, value, strlen(value) + 1) */
    static method CopyOut(text: CText, outBuf: array<Byte>)
      requires |text| + 1 <= outBuf.Length
      modifies outBuf
      ensures outBuf[..] == text + [NUL] + old(outBuf[..])[|text| + 1..]
    {
      ghost var before := outBuf[..];
      for j := 0 to |text|
        invariant forall n | 0 <= n < j :: outBuf[n] == text[n]
        invariant forall n | j <= n < outBuf.Length :: outBuf[n] == before[n]
      {
        outBuf[j] := text[j];
      }
      outBuf[|text|] := NUL;
      assert forall n | 0 <= n < outBuf.Length :: outBuf[n] == (text + [NUL] + before[|text| + 1..])[n];
    }

    // ---- scans ----

    /** count++ for every entry of one chain. */
    method CountChain(b: nat, start: int) returns (count: int)
      requires Linked() && b < |chains| && start == WrapInt(start)
      ensures |chains[b]| == |table[b]| && count == WrapInt(start + |table[b]|)
    {
      assert ChainAt(buckets[b], chains[b], values[b], table[b], b);
      count := start;
      var e := buckets[b];
      ghost var i := 0;
      while e != null
        invariant i <= |chains[b]| && e == NextOf(chains[b], i)
        invariant count == WrapInt(start + i)
        decreases |chains[b]| - i
      {
        assert EntryAt(chains[b], values[b], table[b], b, i);
        WrapStep(start + i, 1);
        count := WrapInt(count + 1);
        e, i := e.next, i + 1;
      }
    }

    method CountBucket(b: nat, start: int) returns (count: int)
      requires Valid() && b < g.n && start == WrapInt(start)
      modifies bucketLocks
      ensures Valid() && count == WrapInt(start + |table[b]|)
    {
      SpinLock(b);
      count := CountChain(b, start);
      SpinUnlock(b);
    }

    /** kv_hash_count with nobody else running: the number of entries, as a C int. */
    method Count() returns (ret: int)
      requires buckets != null ==> Valid()
      modifies bucketLocks
      ensures buckets != null ==> Valid()
      ensures ret == if buckets == null then -EINVAL else WrapInt(|Flatten(table)|)
    {
      if buckets == null { return -EINVAL; }
      var n := Pow2(bits);
      var count := 0;
      for bucket := 0 to n
        invariant Valid()
        invariant count == WrapInt(|Flatten(table[..bucket])|)
      {
        WrapStep(|Flatten(table[..bucket])|, |table[bucket]|);
        FlattenNext(table, bucket);
        count := CountBucket(bucket, count);
      }
      assert table[..g.n] == table;
      return count;
    }

    /** entries[count] = the entry's key and value, cut to the field and padded with zeros. */
    static method WriteRecord(out: array<Record>, count: nat, key: u64, text: CText,
                              ghost first: seq<Record>, ghost start: nat, ghost t: Chain)
      requires start <= count < out.Length == |first| && count - start < |t| && t[count - start] == Entry(key, text)
      requires Written(first, out[..], start, t, count - start)
      modifies out
      ensures Written(first, out[..], start, t, count + 1 - start)
    {
      ghost var w := out[..];
      out[count] := Record(0, key, ZeroPad(Clip(text)));
      assert out[..] == w[count := RecordOf(t[count - start])];
    }

    /** Copy one chain into the buffer from position start; full when an entry was left over. */
    method CopyChain(b: nat, out: array<Record>, max: nat, start: nat) returns (count: nat, full: bool)
      requires buckets != null && b < buckets.Length && b < |chains| == |values| == |table|
      requires ChainAt(buckets[b], chains[b], values[b], table[b], b) && start <= max <= out.Length
      modifies out
      ensures start <= count == Min(max, start + |table[b]|) && (full <==> start + |table[b]| > max)
      ensures Written(old(out[..]), out[..], start, table[b], count - start)
    {
      ghost var c, v, t, first := chains[b], values[b], table[b], out[..];
      count := start;
      var e := buckets[b];
      assert ChainAt(e, c, v, t, b);
      ghost var head := e;
      WrittenNone(first, start, t);
      while e != null
        invariant ChainAt(head, c, v, t, b)
        invariant start <= count <= max && count - start <= |c| && e == NextOf(c, count - start)
        invariant Written(first, out[..], start, t, count - start)
        decreases |c| - (count - start)
      {
        assert EntryAt(c, v, t, b, count - start);
        if count >= max { return count, true; }
        WriteRecord(out, count, e.key, e.value.text, first, start, t);
        e, count := e.next, count + 1;
      }
      return count, false;
    }

    method CopyBucket(b: nat, out: array<Record>, max: nat, start: nat) returns (count: nat, full: bool)
      requires Valid() && b < g.n && start <= max <= out.Length
      modifies bucketLocks, out
      ensures Valid() && start <= count == Min(max, start + |table[b]|) && (full <==> start + |table[b]| > max)
      ensures Written(old(out[..]), out[..], start, table[b], count - start)
    {
      SpinLock(b);
      assert ChainAt(buckets[b], chains[b], values[b], table[b], b);
      count, full := CopyChain(b, out, max, start);
      SpinUnlock(b);
    }

    /** The buffer holds the entries of the buckets below b, then what was there before. */
    static ghost predicate Filled(t: Table, b: nat, first: seq<Record>, now: seq<Record>, count: nat)
      requires b <= |t|
    {
      count == |Flatten(t[..b])| <= |first| && now == RecordsOf(Flatten(t[..b])) + first[count..]
    }

    /** The buffer holds the first count entries of the whole table. */
    static ghost predicate Holding(t: Table, first: seq<Record>, now: seq<Record>, count: nat) {
      count <= |Flatten(t)| && count <= |first| && now == RecordsOf(Flatten(t)[..count]) + first[count..]
    }

    static lemma BufferNext(t: Table, b: nat, first: seq<Record>, before: seq<Record>, after: seq<Record>,
                            start: nat, count: nat)
      requires b < |t| && Filled(t, b, first, before, start) && start <= count <= start + |t[b]| && count <= |first|
      requires Written(before, after, start, t[b], count - start)
      ensures |Flatten(t[..b + 1])| == start + |t[b]| <= |Flatten(t)|
      ensures count == start + |t[b]| ==> Filled(t, b + 1, first, after, count)
      ensures Holding(t, first, after, count)
    {
      FlattenNext(t, b);
      FlattenPrefixOf(t, b + 1);
      assert before[count..] == first[count..];
      assert Flatten(t[..b + 1])[..count] == Flatten(t)[..count];
      assert t[b][..|t[b]|] == t[b];
    }

    /** The bucket loop of kv_hash_snapshot. */
    method ScanAll(out: array<Record>, max: nat) returns (count: nat)
      requires Valid() && max <= out.Length
      modifies bucketLocks, out
      ensures Valid() && count == Min(max, |Flatten(table)|) && Holding(table, old(out[..]), out[..], count)
    {
      var n := Pow2(bits);
      ghost var first := out[..];
      count := 0;
      for bucket := 0 to n
        invariant Valid() && count <= max && Filled(table, bucket, first, out[..], count)
      {
        ghost var before := out[..];
        var next, full := CopyBucket(bucket, out, max, count);
        BufferNext(table, bucket, first, before, out[..], count, next);
        count := next;
        if full { return; }
      }
      assert table[..n] == table && Flatten(table)[..count] == Flatten(table);
    }

    /** kv_hash_snapshot with nobody else running: the entries in scan order, up to max. */
    method Snapshot(out: array<Record>, max: nat) returns (ret: int, outCount: nat)
      requires buckets != null ==> Valid()
      requires max <= out.Length
      modifies bucketLocks, out
      ensures buckets != null ==> Valid()
      ensures buckets == null || max == 0 ==> ret == -EINVAL && out[..] == old(out[..])
      ensures buckets != null && max > 0 ==>
                && ret == 0 && outCount == Min(max, |Flatten(table)|)
                && out[..] == RecordsOf(Flatten(table)[..outCount]) + old(out[..])[outCount..]
    {
      if buckets == null || max == 0 { return -EINVAL, 0; }
      outCount := ScanAll(out, max);
      ret := 0;
    }

    // ---- kv_hash_destroy ----

    /** hlist_for_each_entry_safe: unlink and free a whole chain. */
    method FreeChain(b: nat)
      requires Linked() && Accounted({}) && b < |chains|
      modifies kheap, buckets, entries, `table, `chains, `values, `entries, `strings
      ensures Linked() && Accounted({}) && entries <= old(entries)
      ensures chains == old(chains)[b := []]
    {
      assert ChainAt(buckets[b], chains[b], values[b], table[b], b);
      var e := buckets[b];
      while e != null
        invariant Linked() && Accounted({}) && entries <= old(entries)
        invariant |chains| == |old(chains)| && chains == old(chains)[b := chains[b]]
        invariant e == NextOf(chains[b], 0)
        decreases |chains[b]|
      {
        At(b, 0);
        var tmp := e.next;
        UnlinkAndFree(b, 0, e);
        e := tmp;
      }
    }

    /** Frees every entry and string once, and the bucket array; the lock array stays behind. */
    method Destroy()
      requires buckets != null && Valid()
      modifies this, kheap, buckets, entries
      ensures buckets == null && bits == 0
      ensures kheap.entries == {} && kheap.strings == {} && kheap.heads == {}
      ensures kheap.lockArrays == {old(bucketLocks)}
    {
      var n := Pow2(bits);
      for bucket := 0 to n
        invariant Linked() && Accounted({}) && entries <= old(entries)
        invariant buckets == old(buckets) && bucketLocks == old(bucketLocks)
        invariant forall a | 0 <= a < bucket :: chains[a] == []
      {
        FreeChain(bucket);
      }
      NothingLeft();
      kheap.KfreeHeads(buckets);
      buckets := null;
      bits := 0;
    }

    lemma NothingLeft()
      requires Linked() && forall a | 0 <= a < |chains| :: chains[a] == []
      ensures entries == {} && strings == {}
    {
      forall a | 0 <= a < |chains| ensures values[a] == [] {
        assert ChainAt(buckets[a], chains[a], values[a], table[a], a);
      }
    }
  }
}
