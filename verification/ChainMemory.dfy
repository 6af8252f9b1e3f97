/** Bucket chains as the kernel stores them: nodes at addresses, linked by next and pprev.
    Each of the three writes a critical section makes (store a value, link at the head,
    unlink and free) is an update of this memory; the lemmas say what it does to the shape
    and to the map the memory stands for. */
module ChainMemory {
  import opened KvTypes
  import opened Chains

  type Ptr = nat

  const NULL: Ptr := 0

  // pprev is the node whose next field points here; NULL stands for the bucket head.
  datatype Node = Node(key: u64, value: CText, next: Ptr, pprev: Ptr)

  type Nodes = map<Ptr, Node>

  datatype Heap = Heap(heads: seq<Ptr>, node: Nodes)

  function At(c: seq<Ptr>, i: nat): Ptr {
    if i < |c| then c[i] else NULL
  }

  // ---- the writes ----

  function Store(h: Heap, p: Ptr, v: CText): Heap
    requires p in h.node
  {
    h.(node := h.node[p := h.node[p].(value := v)])
  }

  /** hlist_add_head of the fresh node p. */
  function Link(h: Heap, b: nat, p: Ptr, k: u64, v: CText): Heap
    requires b < |h.heads|
  {
    var first := h.heads[b];
    var behind := if first in h.node then h.node[first := h.node[first].(pprev := p)] else h.node;
    Heap(h.heads[b := p], behind[p := Node(k, v, first, NULL)])
  }

  /** hlist_del of p, followed by kfree(p). */
  function Unlink(h: Heap, b: nat, p: Ptr): Heap
    requires b < |h.heads| && p in h.node
  {
    var prev, next := h.node[p].pprev, h.node[p].next;
    var heads := if prev == NULL then h.heads[b := next] else h.heads;
    var n1 := if prev in h.node then h.node[prev := h.node[prev].(next := next)] else h.node;
    var n2 := if next in n1 then n1[next := n1[next].(pprev := prev)] else n1;
    Heap(heads, n2 - {p})
  }

  // ---- shape ----

  ghost predicate NodeAt(g: Geometry, h: Heap, c: seq<Ptr>, b: nat, i: nat) {
    && i < |c|
    && c[i] in h.node && c[i] != NULL
    && h.node[c[i]].next == At(c, i + 1)
    && h.node[c[i]].pprev == (if i == 0 then NULL else c[i - 1])
    && g.hash(h.node[c[i]].key) == b
  }

  ghost predicate KeysApart(node: Nodes, c: seq<Ptr>) {
    forall i, j | 0 <= i < j < |c| && c[i] in node && c[j] in node :: node[c[i]].key != node[c[j]].key
  }

  /** Exactly the addresses c, in this order, hang off bucket b; no key twice. */
  ghost predicate Linked(g: Geometry, h: Heap, c: seq<Ptr>, b: nat) {
    && b < |h.heads| && h.heads[b] == At(c, 0)
    && (forall i | 0 <= i < |c| :: NodeAt(g, h, c, b, i))
    && KeysApart(h.node, c)
  }

  /** Every node is linked into the chain of its key, and nothing else is linked. */
  ghost predicate Shaped(g: Geometry, h: Heap, cs: seq<seq<Ptr>>) {
    && |h.heads| == g.n == |cs|
    && (forall b | 0 <= b < |cs| :: Linked(g, h, cs[b], b))
    && (forall p | p in h.node :: p in cs[g.hash(h.node[p].key)])
  }

  /** The bucket's entries, in chain order. */
  ghost function Contents(node: Nodes, c: seq<Ptr>): (r: Chain)
    requires forall p | p in c :: p in node
    ensures |r| == |c|
    ensures forall i | 0 <= i < |c| :: r[i] == Entry(node[c[i]].key, node[c[i]].value)
  {
    seq(|c|, i requires 0 <= i < |c| => Entry(node[c[i]].key, node[c[i]].value))
  }

  // ---- the map the memory stands for ----

  ghost predicate HasKey(node: Nodes, k: u64) {
    exists p :: p in node && node[p].key == k
  }

  ghost predicate UniqueKeys(node: Nodes) {
    forall p, q | p in node && q in node && node[p].key == node[q].key :: p == q
  }

  ghost function ValueOf(node: Nodes, k: u64): CText
    requires HasKey(node, k)
  {
    var p :| p in node && node[p].key == k;
    node[p].value
  }

  ghost function MapOf(node: Nodes): map<u64, CText> {
    map k: u64 | HasKey(node, k) :: ValueOf(node, k)
  }

  lemma MapOfAt(node: Nodes, p: Ptr)
    requires UniqueKeys(node) && p in node
    ensures node[p].key in MapOf(node) && MapOf(node)[node[p].key] == node[p].value
  {
    assert HasKey(node, node[p].key);
  }

  lemma InBucket(g: Geometry, h: Heap, cs: seq<seq<Ptr>>, b: nat, p: Ptr)
    requires Shaped(g, h, cs) && b < |cs| && p in cs[b]
    ensures p in h.node && p != NULL && g.hash(h.node[p].key) == b
  {
    assert Linked(g, h, cs[b], b);
    var i :| 0 <= i < |cs[b]| && cs[b][i] == p;
    assert NodeAt(g, h, cs[b], b, i);
  }

  lemma ShapedUnique(g: Geometry, h: Heap, cs: seq<seq<Ptr>>)
    requires Shaped(g, h, cs)
    ensures UniqueKeys(h.node)
  {
    forall p, q | p in h.node && q in h.node && h.node[p].key == h.node[q].key ensures p == q {
      var b := g.hash(h.node[p].key);
      assert Linked(g, h, cs[b], b);
      var i :| 0 <= i < |cs[b]| && cs[b][i] == p;
      var j :| 0 <= j < |cs[b]| && cs[b][j] == q;
    }
  }

  /** Walking off the end of a chain without meeting k means that k is absent. */
  lemma AbsentAtEnd(g: Geometry, h: Heap, cs: seq<seq<Ptr>>, k: u64)
    requires Shaped(g, h, cs)
    requires forall p | p in cs[g.hash(k)] && p in h.node :: h.node[p].key != k
    ensures k !in MapOf(h.node)
  {
    assert forall p | p in h.node :: p in cs[g.hash(h.node[p].key)];
  }

  /** A bucket's entries enumerate the part of the map that hashes there. */
  lemma ContentsEnumerate(g: Geometry, h: Heap, cs: seq<seq<Ptr>>, b: nat)
    requires Shaped(g, h, cs) && b < |cs|
    ensures forall p | p in cs[b] :: p in h.node
    ensures Enumerates(g, MapOf(h.node), b, Contents(h.node, cs[b]))
  {
    var m, c := MapOf(h.node), cs[b];
    forall p | p in c ensures p in h.node { InBucket(g, h, cs, b, p); }
    assert Linked(g, h, c, b);
    var e := Contents(h.node, c);
    forall k: u64, v: CText
      ensures Entry(k, v) in e <==> k in m && g.hash(k) == b && m[k] == v
    {
      if Entry(k, v) in e { ListedIsMapped(g, h, cs, b, k, v); }
      if k in m && g.hash(k) == b && m[k] == v { MappedInBucket(g, h, cs, k); }
    }
    forall i, j | 0 <= i < j < |e| ensures e[i].key != e[j].key {
      assert c[i] in c && c[j] in c;
    }
  }

  lemma ListedIsMapped(g: Geometry, h: Heap, cs: seq<seq<Ptr>>, b: nat, k: u64, v: CText)
    requires Shaped(g, h, cs) && b < |cs|
    requires forall p | p in cs[b] :: p in h.node
    requires Entry(k, v) in Contents(h.node, cs[b])
    ensures k in MapOf(h.node) && g.hash(k) == b && MapOf(h.node)[k] == v
  {
    var c := cs[b];
    var i :| 0 <= i < |c| && Contents(h.node, c)[i] == Entry(k, v);
    ShapedUnique(g, h, cs);
    InBucket(g, h, cs, b, c[i]);
    MapOfAt(h.node, c[i]);
  }

  lemma MappedInBucket(g: Geometry, h: Heap, cs: seq<seq<Ptr>>, k: u64)
    requires Shaped(g, h, cs) && k in MapOf(h.node)
    requires forall p | p in cs[g.hash(k)] :: p in h.node
    ensures Entry(k, MapOf(h.node)[k]) in Contents(h.node, cs[g.hash(k)])
  {
    ShapedUnique(g, h, cs);
    var p :| p in h.node && h.node[p].key == k;
    MapOfAt(h.node, p);
    var c := cs[g.hash(k)];
    var i :| 0 <= i < |c| && c[i] == p;
    assert Contents(h.node, c)[i] == Entry(k, MapOf(h.node)[k]);
  }

  /** e lists the pairs of m whose key hashes to b, each once, in some order. */
  ghost predicate Enumerates(g: Geometry, m: map<u64, CText>, b: nat, e: Chain) {
    && Distinct(e)
    && forall k: u64, v: CText :: Entry(k, v) in e <==> k in m && g.hash(k) == b && m[k] == v
  }

  // ---- what the writes do ----

  /** The nodes hold exactly the pairs of m. */
  ghost predicate Represents(node: Nodes, m: map<u64, CText>) {
    && (forall p | p in node :: node[p].key in m && m[node[p].key] == node[p].value)
    && forall k | k in m :: HasKey(node, k)
  }

  lemma MapOfIs(node: Nodes, m: map<u64, CText>)
    requires UniqueKeys(node) && Represents(node, m)
    ensures MapOf(node) == m
  {
    var n := MapOf(node);
    forall k: u64 ensures k in n <==> k in m {
      if HasKey(node, k) { var p :| p in node && node[p].key == k; }
    }
    forall k | k in m ensures n[k] == m[k] {
      var p :| p in node && node[p].key == k;
      MapOfAt(node, p);
    }
  }

  /** The nodes of every other bucket are as they were. */
  ghost predicate OthersKept(cs: seq<seq<Ptr>>, b: nat, before: Nodes, after: Nodes) {
    forall a, p | 0 <= a < |cs| && a != b && p in cs[a] && p in before :: p in after && after[p] == before[p]
  }

  /** Every node but p keeps its key and value; p has key k and value v. */
  lemma MapAfterWrite(before: Nodes, after: Nodes, p: Ptr, k: u64, v: CText)
    requires UniqueKeys(before) && UniqueKeys(after)
    requires p in after && after[p].key == k && after[p].value == v
    requires forall q | q != p :: q in after <==> q in before
    requires forall q | q in before && q != p :: after[q].key == before[q].key && after[q].value == before[q].value
    requires p in before ==> before[p].key == k
    ensures Represents(after, MapOf(before)[k := v])
  {
    forall q | q in after ensures q == p || (after[q].key != k && after[q].key in MapOf(before)
                                              && MapOf(before)[after[q].key] == after[q].value) {
      if q != p { MapOfAt(before, q); }
    }
    forall x | x in MapOf(before)[k := v] ensures HasKey(after, x) {
      if x != k {
        var q :| q in before && before[q].key == x;
        assert q in after && after[q].key == x;
      }
    }
  }

  /** p is gone; every other node keeps its key and value. */
  lemma MapAfterFree(before: Nodes, after: Nodes, p: Ptr)
    requires UniqueKeys(before) && UniqueKeys(after)
    requires p in before && p !in after
    requires forall q | q != p :: q in after <==> q in before
    requires forall q | q in after :: q in before && after[q].key == before[q].key && after[q].value == before[q].value
    ensures Represents(after, MapOf(before) - {before[p].key})
  {
    var k := before[p].key;
    forall q | q in after ensures after[q].key != k && after[q].key in MapOf(before)
                                  && MapOf(before)[after[q].key] == after[q].value {
      MapOfAt(before, q);
    }
    forall x | x in MapOf(before) - {k} ensures HasKey(after, x) {
      var q :| q in before && before[q].key == x;
      assert q in after && after[q].key == x;
    }
  }

  /** Buckets whose nodes are untouched stay linked. */
  lemma OtherBucketsLinked(g: Geometry, h: Heap, h': Heap, cs: seq<seq<Ptr>>, b: nat, a: nat)
    requires Shaped(g, h, cs) && a < |cs| && a != b && b < |cs|
    requires |h'.heads| == |h.heads| && h'.heads[a] == h.heads[a]
    requires OthersKept(cs, b, h.node, h'.node)
    ensures Linked(g, h', cs[a], a)
  {
    var c := cs[a];
    assert Linked(g, h, c, a);
    forall i | 0 <= i < |c| ensures NodeAt(g, h', c, a, i) && c[i] in h.node && h'.node[c[i]] == h.node[c[i]] {
      assert NodeAt(g, h, c, a, i);
      assert c[i] in cs[a];
    }
  }

  lemma StoreLinked(g: Geometry, h: Heap, cs: seq<seq<Ptr>>, b: nat, p: Ptr, v: CText)
    requires Shaped(g, h, cs) && b < |cs| && p in cs[b]
    ensures p in h.node && Shaped(g, Store(h, p, v), cs)
    ensures OthersKept(cs, b, h.node, Store(h, p, v).node)
  {
    InBucket(g, h, cs, b, p);
    var h' := Store(h, p, v);
    forall a, q | 0 <= a < |cs| && a != b && q in cs[a] ensures q != p { InBucket(g, h, cs, a, q); }
    forall a | 0 <= a < |cs| ensures Linked(g, h', cs[a], a) {
      assert Linked(g, h, cs[a], a);
      forall i | 0 <= i < |cs[a]| ensures NodeAt(g, h', cs[a], a, i) {
        assert NodeAt(g, h, cs[a], a, i);
      }
    }
  }

  lemma StoreShape(g: Geometry, h: Heap, cs: seq<seq<Ptr>>, b: nat, p: Ptr, v: CText)
    requires Shaped(g, h, cs) && b < |cs| && p in cs[b]
    ensures p in h.node && Shaped(g, Store(h, p, v), cs)
    ensures OthersKept(cs, b, h.node, Store(h, p, v).node)
    ensures MapOf(Store(h, p, v).node) == MapOf(h.node)[h.node[p].key := v]
  {
    StoreLinked(g, h, cs, b, p, v);
    var h' := Store(h, p, v);
    ShapedUnique(g, h, cs);
    ShapedUnique(g, h', cs);
    MapAfterWrite(h.node, h'.node, p, h.node[p].key, v);
    MapOfIs(h'.node, MapOf(h.node)[h.node[p].key := v]);
  }

  // ---- linking ----

  lemma LinkNodes(g: Geometry, h: Heap, cs: seq<seq<Ptr>>, p: Ptr, k: u64, v: CText)
    requires Shaped(g, h, cs) && p !in h.node && p != NULL
    ensures var b := g.hash(k); var h' := Link(h, b, p, k, v);
            && OthersKept(cs, b, h.node, h'.node)
            && (forall q | q != p :: q in h'.node <==> q in h.node)
            && (forall q | q in h.node :: q != p && h'.node[q].key == h.node[q].key
                                          && h'.node[q].value == h.node[q].value
                                          && h'.node[q].next == h.node[q].next)
            && (forall q | q in h.node && q != h.heads[b] :: h'.node[q] == h.node[q])
  {
    var b := g.hash(k);
    assert Linked(g, h, cs[b], b);
    forall a, q | 0 <= a < |cs| && a != b && q in cs[a] ensures q in h.node && q != h.heads[b] {
      InBucket(g, h, cs, a, q);
      if q == h.heads[b] {
        assert q == cs[b][0];
        InBucket(g, h, cs, b, q);
      }
    }
  }

  lemma LinkedAfterLink(g: Geometry, h: Heap, cs: seq<seq<Ptr>>, p: Ptr, k: u64, v: CText)
    requires Shaped(g, h, cs) && p !in h.node && p != NULL
    requires forall q | q in h.node :: h.node[q].key != k
    ensures Linked(g, Link(h, g.hash(k), p, k, v), [p] + cs[g.hash(k)], g.hash(k))
  {
    var b := g.hash(k);
    var h', c := Link(h, b, p, k, v), cs[b];
    var d := [p] + c;
    LinkNodes(g, h, cs, p, k, v);
    assert Linked(g, h, c, b);
    forall i | 0 <= i < |d| ensures NodeAt(g, h', d, b, i) {
      if i > 0 {
        assert NodeAt(g, h, c, b, i - 1);
        assert d[i] == c[i - 1] && At(d, i + 1) == At(c, i);
        if i > 1 {
          assert NodeAt(g, h, c, b, 0);
          assert d[i - 1] == c[i - 2];
        }
      }
    }
    forall i, j | 0 <= i < j < |d| && d[i] in h'.node && d[j] in h'.node
      ensures h'.node[d[i]].key != h'.node[d[j]].key
    {
      assert NodeAt(g, h, c, b, j - 1);
      if i > 0 { assert NodeAt(g, h, c, b, i - 1); }
    }
  }

  lemma {:induction false} LinkShape(g: Geometry, h: Heap, cs: seq<seq<Ptr>>, p: Ptr, k: u64, v: CText)
    requires Shaped(g, h, cs) && p !in h.node && p != NULL && k !in MapOf(h.node)
    ensures var b := g.hash(k); var h' := Link(h, b, p, k, v);
            && Shaped(g, h', cs[b := [p] + cs[b]])
            && OthersKept(cs, b, h.node, h'.node)
            && MapOf(h'.node) == MapOf(h.node)[k := v]
  {
    forall q | q in h.node ensures h.node[q].key != k {
      assert HasKey(h.node, h.node[q].key);
    }
    ShapedAfterLink(g, h, cs, p, k, v);
    LinkNodes(g, h, cs, p, k, v);
    MapAfterLink(g, h, cs, p, k, v);
    MapOfIs(Link(h, g.hash(k), p, k, v).node, MapOf(h.node)[k := v]);
  }

  lemma MapAfterLink(g: Geometry, h: Heap, cs: seq<seq<Ptr>>, p: Ptr, k: u64, v: CText)
    requires Shaped(g, h, cs) && p !in h.node && p != NULL
    requires Shaped(g, Link(h, g.hash(k), p, k, v), cs[g.hash(k) := [p] + cs[g.hash(k)]])
    ensures var node := Link(h, g.hash(k), p, k, v).node; UniqueKeys(node) && Represents(node, MapOf(h.node)[k := v])
  {
    var h' := Link(h, g.hash(k), p, k, v);
    LinkNodes(g, h, cs, p, k, v);
    ShapedUnique(g, h, cs);
    ShapedUnique(g, h', cs[g.hash(k) := [p] + cs[g.hash(k)]]);
    MapAfterWrite(h.node, h'.node, p, k, v);
  }

  lemma ShapedAfterLink(g: Geometry, h: Heap, cs: seq<seq<Ptr>>, p: Ptr, k: u64, v: CText)
    requires Shaped(g, h, cs) && p !in h.node && p != NULL
    requires forall q | q in h.node :: h.node[q].key != k
    ensures Shaped(g, Link(h, g.hash(k), p, k, v), cs[g.hash(k) := [p] + cs[g.hash(k)]])
  {
    var b := g.hash(k);
    var h', d := Link(h, b, p, k, v), [p] + cs[b];
    var cs' := cs[b := d];
    LinkNodes(g, h, cs, p, k, v);
    LinkedAfterLink(g, h, cs, p, k, v);
    forall a | 0 <= a < |cs| && a != b ensures Linked(g, h', cs'[a], a) {
      OtherBucketsLinked(g, h, h', cs, b, a);
    }
    forall q | q in h'.node ensures q in cs'[g.hash(h'.node[q].key)] {
      if q == p { assert d[0] == p; } else { assert q in h.node && d[1..] == cs[b]; }
    }
  }

  // ---- unlinking ----

  /** The neighbours of position i, as its node records them. */
  lemma Neighbours(g: Geometry, h: Heap, cs: seq<seq<Ptr>>, b: nat, i: nat)
    requires Shaped(g, h, cs) && b < |cs| && i < |cs[b]|
    ensures var c := cs[b];
            && c[i] in h.node && c[i] != NULL && NULL !in h.node
            && h.node[c[i]].pprev == (if i == 0 then NULL else c[i - 1])
            && h.node[c[i]].next == At(c, i + 1)
            && (i > 0 ==> c[i - 1] in h.node && c[i - 1] != c[i] && c[i - 1] != At(c, i + 1))
            && (i + 1 < |c| ==> c[i + 1] in h.node && c[i + 1] != c[i])
            && b < |h.heads| && h.heads[b] == c[0]
  {
    var c := cs[b];
    assert Linked(g, h, c, b);
    assert NodeAt(g, h, c, b, i);
    if i > 0 { assert NodeAt(g, h, c, b, i - 1); }
    if i + 1 < |c| { assert NodeAt(g, h, c, b, i + 1); }
    if NULL in h.node { InBucket(g, h, cs, g.hash(h.node[NULL].key), NULL); }
  }

  /** h' is h with position i of the chain c of bucket b spliced out and freed. */
  ghost predicate Spliced(h: Heap, h': Heap, b: nat, c: seq<Ptr>, i: nat) {
    && i < |c|
    && (forall q :: q in h'.node <==> q in h.node && q != c[i])
    && (forall q | q in h'.node :: h'.node[q].key == h.node[q].key && h'.node[q].value == h.node[q].value)
    && (forall q | q in h'.node && (i > 0 ==> q != c[i - 1]) :: h'.node[q].next == h.node[q].next)
    && (forall q | q in h'.node && q != At(c, i + 1) :: h'.node[q].pprev == h.node[q].pprev)
    && (i > 0 ==> c[i - 1] in h'.node && h'.node[c[i - 1]].next == At(c, i + 1))
    && (i + 1 < |c| ==> c[i + 1] in h'.node && h'.node[c[i + 1]].pprev == if i == 0 then NULL else c[i - 1])
    && b < |h.heads| && h'.heads == if i == 0 then h.heads[b := At(c, 1)] else h.heads
  }

  lemma UnlinkNodes(g: Geometry, h: Heap, cs: seq<seq<Ptr>>, b: nat, i: nat)
    requires Shaped(g, h, cs) && b < |cs| && i < |cs[b]|
    ensures cs[b][i] in h.node && Linked(g, h, cs[b], b)
    ensures b < |h.heads| && Spliced(h, Unlink(h, b, cs[b][i]), b, cs[b], i)
  {
    Neighbours(g, h, cs, b, i);
  }

  lemma UnlinkKeepsOthers(g: Geometry, h: Heap, cs: seq<seq<Ptr>>, b: nat, i: nat)
    requires Shaped(g, h, cs) && b < |cs| && i < |cs[b]| && cs[b][i] in h.node
    ensures OthersKept(cs, b, h.node, Unlink(h, b, cs[b][i]).node)
  {
    var c := cs[b];
    UnlinkNodes(g, h, cs, b, i);
    forall a, q | 0 <= a < |cs| && a != b && q in cs[a]
      ensures q in h.node && q != c[i] && (i > 0 ==> q != c[i - 1]) && q != At(c, i + 1)
    {
      InBucket(g, h, cs, a, q);
      if i > 0 { InBucket(g, h, cs, b, c[i - 1]); }
      if i + 1 < |c| { InBucket(g, h, cs, b, c[i + 1]); }
      InBucket(g, h, cs, b, c[i]);
    }
  }

  lemma LinkedAfterSplice(g: Geometry, h: Heap, h': Heap, b: nat, c: seq<Ptr>, i: nat)
    requires Linked(g, h, c, b) && i < |c| && Spliced(h, h', b, c, i)
    ensures Linked(g, h', c[..i] + c[i + 1..], b)
  {
    var d := c[..i] + c[i + 1..];
    forall j | 0 <= j < |d| ensures NodeAt(g, h', d, b, j) {
      SplicedNode(g, h, h', b, c, i, j);
    }
    forall j, l | 0 <= j < l < |d| && d[j] in h'.node && d[l] in h'.node
      ensures h'.node[d[j]].key != h'.node[d[l]].key
    {
      assert d[j] == c[if j < i then j else j + 1] && d[l] == c[if l < i then l else l + 1];
    }
    assert At(d, 0) == if i == 0 then At(c, 1) else c[0];
  }

  lemma SplicedNode(g: Geometry, h: Heap, h': Heap, b: nat, c: seq<Ptr>, i: nat, j: nat)
    requires Linked(g, h, c, b) && i < |c| && Spliced(h, h', b, c, i) && j + 1 < |c|
    ensures NodeAt(g, h', c[..i] + c[i + 1..], b, j)
  {
    var was := if j < i then j else j + 1;
    assert NodeAt(g, h, c, b, was);
    DifferentNodes(g, h, c, b, was, i);
    if i > 0 && was != i - 1 { DifferentNodes(g, h, c, b, was, i - 1); }
    if i + 1 < |c| && was != i + 1 { DifferentNodes(g, h, c, b, was, i + 1); }
    Removed(c, i, j);
  }

  /** Positions in a sequence after element i has been taken out. */
  lemma Removed(c: seq<Ptr>, i: nat, j: nat)
    requires i < |c| && j + 1 < |c|
    ensures var d := c[..i] + c[i + 1..];
            && d[j] == c[if j < i then j else j + 1]
            && At(d, j + 1) == At(c, if j + 1 < i then j + 1 else j + 2)
            && (j > 0 ==> d[j - 1] == c[if j - 1 < i then j - 1 else j])
  {
  }

  lemma DifferentNodes(g: Geometry, h: Heap, c: seq<Ptr>, b: nat, i: nat, j: nat)
    requires Linked(g, h, c, b) && i < |c| && j < |c| && i != j
    ensures c[i] != c[j]
  {
    assert NodeAt(g, h, c, b, i) && NodeAt(g, h, c, b, j);
  }

  lemma UnlinkShape(g: Geometry, h: Heap, cs: seq<seq<Ptr>>, b: nat, i: nat)
    requires Shaped(g, h, cs) && b < |cs| && i < |cs[b]|
    ensures var p := cs[b][i];
            && p in h.node
            && var h' := Unlink(h, b, p);
            && Shaped(g, h', cs[b := cs[b][..i] + cs[b][i + 1..]])
            && OthersKept(cs, b, h.node, h'.node)
            && MapOf(h'.node) == MapOf(h.node) - {h.node[p].key}
  {
    UnlinkNodes(g, h, cs, b, i);
    UnlinkKeepsOthers(g, h, cs, b, i);
    var h' := Unlink(h, b, cs[b][i]);
    ShapedAfterSplice(g, h, h', cs, b, i);
    ShapedUnique(g, h, cs);
    ShapedUnique(g, h', cs[b := cs[b][..i] + cs[b][i + 1..]]);
    MapAfterFree(h.node, h'.node, cs[b][i]);
    MapOfIs(h'.node, MapOf(h.node) - {h.node[cs[b][i]].key});
  }

  lemma ShapedAfterSplice(g: Geometry, h: Heap, h': Heap, cs: seq<seq<Ptr>>, b: nat, i: nat)
    requires Shaped(g, h, cs) && b < |cs| && i < |cs[b]| && Spliced(h, h', b, cs[b], i)
    requires OthersKept(cs, b, h.node, h'.node)
    ensures Shaped(g, h', cs[b := cs[b][..i] + cs[b][i + 1..]])
  {
    var d := cs[b][..i] + cs[b][i + 1..];
    var cs' := cs[b := d];
    assert Linked(g, h, cs[b], b);
    LinkedAfterSplice(g, h, h', b, cs[b], i);
    forall a | 0 <= a < |cs| && a != b ensures Linked(g, h', cs'[a], a) {
      OtherBucketsLinked(g, h, h', cs, b, a);
    }
    forall q | q in h'.node ensures q in cs'[g.hash(h'.node[q].key)] {
      assert q in cs[g.hash(h.node[q].key)];
      if g.hash(h.node[q].key) == b {
        var j :| 0 <= j < |cs[b]| && cs[b][j] == q;
        assert d[if j < i then j else j - 1] == q;
      }
    }
  }
}
