/** The value strings while threads interleave: kstrdup and kfree of the machine's steps, and that
    in every state exactly the strings of the linked nodes and of the adds in flight are live. */
module Strings {
  import opened KvTypes
  import opened Chains
  import opened ChainMemory
  import opened Requests
  import opened Machine
  import opened Refinement

  type Str = nat

  // live: allocated and not freed; text: what kstrdup wrote into each string; node: e->value of
  // each node; flight: newstr of each add.
  datatype Ledger = Ledger(live: set<Str>, text: map<Str, CText>, node: map<Ptr, Str>, flight: map<Tid, Str>)

  /** The node that s' has and s has not. */
  ghost function NewNode(s: State, s': State): Option<Ptr> {
    if exists p :: p in s'.heap.node && p !in s.heap.node then
      var p :| p in s'.heap.node && p !in s.heap.node;
      Some(p)
    else None
  }

  /** The end of a critical section. */
  predicate Ends(th: Thread, th': Thread) {
    th.pc.Walk? && th'.pc.Unlock?
  }

  /** What the step of thread t from s to s' does to the strings; x is what kstrdup would return. */
  ghost function After(s: State, s': State, t: Tid, l: Ledger, x: Str): Ledger
    requires t < |s.threads| && t < |s'.threads|
  {
    var th, th' := s.threads[t], s'.threads[t];
    match OpOf(th.prog)
    case Some(Add(_, v)) =>
      if th.pc.Idle? && th'.pc.Wait? then
        l.(live := l.live + {x}, text := l.text[x := v], flight := l.flight[t := x])  // newstr = kstrdup(value)
      else if Ends(th, th') && t in l.flight then
        if th.pc.cur in l.node then
          l.(live := l.live - {l.node[th.pc.cur]},                                    // kfree(e->value)
             node := l.node[th.pc.cur := l.flight[t]], flight := l.flight - {t})      // e->value = newstr
        else if NewNode(s, s').Some? then
          l.(node := l.node[NewNode(s, s').value := l.flight[t]], flight := l.flight - {t})
        else
          l.(live := l.live - {l.flight[t]}, flight := l.flight - {t})                // kfree(newstr)
      else l
    case Some(Remove(_)) =>
      if Ends(th, th') && th.pc.cur in l.node then
        l.(live := l.live - {l.node[th.pc.cur]}, node := l.node - {th.pc.cur})        // kfree(e->value)
      else l
    case _ => l
  }

  /** An add that has its string and has not yet stored or freed it. */
  predicate Carries(th: Thread) {
    OpOf(th.prog).Some? && OpOf(th.prog).value.Add? && (th.pc.Wait? || th.pc.Walk?)
  }

  /** Every node and every add in flight has a live string of its own, and nothing else is live. */
  ghost predicate Owned(s: State, l: Ledger) {
    && l.node.Keys == s.heap.node.Keys
    && (forall t: Tid :: t in l.flight <==> t < |s.threads| && Carries(s.threads[t]))
    && l.live == l.node.Values + l.flight.Values
    && (forall p, q | p in l.node && q in l.node && l.node[p] == l.node[q] :: p == q)
    && (forall t, u | t in l.flight && u in l.flight && l.flight[t] == l.flight[u] :: t == u)
    && (forall p, t | p in l.node && t in l.flight :: l.node[p] != l.flight[t])
  }

  /** The string x reads v. */
  predicate Reads(l: Ledger, x: Str, v: CText) {
    x in l.text && l.text[x] == v
  }

  predicate NodeReads(s: State, l: Ledger, p: Ptr) {
    p in l.node && p in s.heap.node ==> Reads(l, l.node[p], s.heap.node[p].value)
  }

  predicate FlightReads(s: State, l: Ledger, t: Tid) {
    t in l.flight && t < |s.threads| && Carries(s.threads[t]) ==>
      Reads(l, l.flight[t], OpOf(s.threads[t].prog).value.value)
  }

  /** The string of a node reads its value, that of an add in flight the value it will store. */
  ghost predicate Spelled(s: State, l: Ledger) {
    (forall p: Ptr :: NodeReads(s, l, p)) && forall t: Tid :: FlightReads(s, l, t)
  }

  /** The live strings are those of the nodes and of the adds in flight, all different, and each
      reads the value it is there for. */
  ghost predicate Conserved(s: State, l: Ledger) {
    Owned(s, l) && Spelled(s, l)
  }

  // ---- what each kind of change to the ledger keeps ----

  lemma NullIsNoNode(g: Geometry, s: State)
    requires Inv(g, s)
    ensures NULL !in s.heap.node
  {
    var cs: seq<seq<Ptr>> :| InvWith(g, s, cs);
    if NULL in s.heap.node { InBucket(g, s.heap, cs, g.hash(s.heap.node[NULL].key), NULL); }
  }

  ghost predicate SameFlight(s: State, s': State, t: Tid) {
    && t < |s.threads| == |s'.threads|
    && forall u | 0 <= u < |s.threads| && u != t :: s'.threads[u] == s.threads[u]
  }

  /** A string is allocated for an add. */
  lemma Duplicated(s: State, s': State, t: Tid, l: Ledger, x: Str, v: CText)
    requires Owned(s, l) && SameFlight(s, s', t) && x !in l.live && s'.heap.node.Keys == s.heap.node.Keys
    requires !Carries(s.threads[t]) && Carries(s'.threads[t])
    ensures Owned(s', l.(live := l.live + {x}, text := l.text[x := v], flight := l.flight[t := x]))
  {
    var f := l.flight[t := x];
    assert f.Values == l.flight.Values + {x} by {
      forall y ensures y in f.Values <==> y in l.flight.Values || y == x {
        if y in l.flight.Values { var u :| u in l.flight && l.flight[u] == y; assert f[u] == y; }
        if y == x { assert f[t] == x; }
      }
    }
  }

  /** The string of an add becomes that of node p, whose old one, if any, is freed. */
  lemma Installed(s: State, s': State, t: Tid, l: Ledger, p: Ptr)
    requires Owned(s, l) && SameFlight(s, s', t) && s'.heap.node.Keys == s.heap.node.Keys + {p}
    requires Carries(s.threads[t]) && !Carries(s'.threads[t])
    ensures t in l.flight
    ensures var gone := if p in l.node then {l.node[p]} else {};
            Owned(s', l.(live := l.live - gone, node := l.node[p := l.flight[t]], flight := l.flight - {t}))
  {
    InstalledValues(l, t, p);
  }

  lemma InstalledValues(l: Ledger, t: Tid, p: Ptr)
    requires t in l.flight && l.live == l.node.Values + l.flight.Values
    requires forall q, u | q in l.node && u in l.flight :: l.node[q] != l.flight[u]
    requires forall q, o | q in l.node && o in l.node && l.node[q] == l.node[o] :: q == o
    ensures var gone := if p in l.node then {l.node[p]} else {};
            l.live - gone == l.node[p := l.flight[t]].Values + (l.flight - {t}).Values
  {
    var n, f := l.node[p := l.flight[t]], l.flight - {t};
    var gone := if p in l.node then {l.node[p]} else {};
    forall y ensures y in l.live - gone <==> y in n.Values + f.Values {
      if y in l.live - gone {
        if y in l.node.Values {
          var q :| q in l.node && l.node[q] == y;
          assert n[q] == y;
        } else {
          var u :| u in l.flight && l.flight[u] == y;
          if u == t { assert n[p] == y; } else { assert f[u] == y; }
        }
      }
    }
  }

  /** The string of an add that found no memory is freed. */
  lemma Dropped(s: State, s': State, t: Tid, l: Ledger)
    requires Owned(s, l) && SameFlight(s, s', t) && s'.heap.node.Keys == s.heap.node.Keys
    requires Carries(s.threads[t]) && !Carries(s'.threads[t])
    ensures t in l.flight && Owned(s', l.(live := l.live - {l.flight[t]}, flight := l.flight - {t}))
  {
    var f := l.flight - {t};
    forall y ensures y in l.live - {l.flight[t]} <==> y in l.node.Values + f.Values {
      if y in l.live - {l.flight[t]} && y !in l.node.Values {
        var u :| u in l.flight && l.flight[u] == y;
        assert f[u] == y;
      }
    }
  }

  /** A node is freed with its string. */
  lemma Freed(s: State, s': State, t: Tid, l: Ledger, p: Ptr)
    requires Owned(s, l) && SameFlight(s, s', t) && p in l.node && s'.heap.node.Keys == s.heap.node.Keys - {p}
    requires !Carries(s.threads[t]) && !Carries(s'.threads[t])
    ensures Owned(s', l.(live := l.live - {l.node[p]}, node := l.node - {p}))
  {
    var n := l.node - {p};
    forall y ensures y in l.live - {l.node[p]} <==> y in n.Values + l.flight.Values {
      if y in l.live - {l.node[p]} && y in l.node.Values {
        var q :| q in l.node && l.node[q] == y;
        assert n[q] == y;
      }
    }
  }

  // ---- every step ----

  lemma HitOwns(s: State, s': State, t: Tid, l: Ledger, x: Str)
    requires t < |s.threads| && HitStep(s, s', t) && Owned(s, l)
    ensures t < |s'.threads| && Owned(s', After(s, s', t, l, x))
  {
    var th := s.threads[t];
    match OpOf(th.prog).value {
      case Add(_, _) => Installed(s, s', t, l, th.pc.cur);
      case Remove(_) => Freed(s, s', t, l, th.pc.cur);
      case _ =>
    }
  }

  lemma LinkOwns(s: State, s': State, t: Tid, p: Ptr, l: Ledger, x: Str)
    requires t < |s.threads| && LinkStep(s, s', t, p) && Owned(s, l) && NULL !in s.heap.node
    ensures t < |s'.threads| && Owned(s', After(s, s', t, l, x))
  {
    Installed(s, s', t, l, p);
    assert NewNode(s, s') == Some(p);
  }

  lemma MissOwns(s: State, s': State, t: Tid, l: Ledger, x: Str)
    requires t < |s.threads| && MissStep(s, s', t) && Owned(s, l) && NULL !in s.heap.node
    ensures t < |s'.threads| && Owned(s', After(s, s', t, l, x))
  {
    if OpOf(s.threads[t].prog).value.Add? { Dropped(s, s', t, l); }
  }

  lemma LocalOwns(s: State, s': State, t: Tid, l: Ledger, x: Str)
    requires t < |s.threads| && LocalStep(s, s', t) && Owned(s, l) && x !in l.live
    requires ClientStep(s.threads[t], s'.threads[t]) || CallStep(s.threads[t], s'.threads[t])
    ensures Owned(s', After(s, s', t, l, x))
  {
    if Carries(s'.threads[t]) { Duplicated(s, s', t, l, x, OpOf(s.threads[t].prog).value.value); }
  }

  /** Locks, cursors and scans leave the strings alone. */
  ghost predicate OtherStep(g: Geometry, s: State, s': State, t: Tid) {
    || AcquireStep(g, s, s', t) || AdvanceStep(s, s', t) || ReleaseStep(s, s', t)
    || ScanAcquireStep(s, s', t) || ScanNodeStep(s, s', t) || ScanEndStep(s, s', t)
    || ScanReleaseStep(g, s, s', t)
  }

  lemma OtherLeaves(g: Geometry, s: State, s': State, t: Tid, l: Ledger, x: Str)
    requires t < |s.threads| && OtherStep(g, s, s', t)
    ensures SameFlight(s, s', t) && s'.heap == s.heap && s'.threads[t].prog == s.threads[t].prog
    ensures Carries(s'.threads[t]) <==> Carries(s.threads[t])
    ensures After(s, s', t, l, x) == l
  {
  }

  lemma OtherOwns(g: Geometry, s: State, s': State, t: Tid, l: Ledger, x: Str)
    requires t < |s.threads| && OtherStep(g, s, s', t) && Owned(s, l)
    ensures t < |s'.threads| && Owned(s', After(s, s', t, l, x))
  {
    OtherLeaves(g, s, s', t, l, x);
  }

  lemma {:induction false} StepOwns(g: Geometry, s: State, s': State, t: Tid, l: Ledger, x: Str)
    requires Step(g, s, s', t) && Inv(g, s) && Owned(s, l) && x !in l.live
    ensures t < |s'.threads| && Owned(s', After(s, s', t, l, x))
  {
    NullIsNoNode(g, s);
    if HitStep(s, s', t) {
      HitOwns(s, s', t, l, x);
    } else if MissStep(s, s', t) {
      MissOwns(s, s', t, l, x);
    } else if exists p: Ptr :: LinkStep(s, s', t, p) {
      var p: Ptr :| LinkStep(s, s', t, p);
      LinkOwns(s, s', t, p, l, x);
    } else if && LocalStep(s, s', t)
              && (ClientStep(s.threads[t], s'.threads[t]) || CallStep(s.threads[t], s'.threads[t])) {
      LocalOwns(s, s', t, l, x);
    } else {
      OtherOwns(g, s, s', t, l, x);
    }
  }

  // ---- and the strings read what they should ----

  /** The string that node q had and has reads the same, and so does its value. */
  predicate NodeFramed(s: State, s': State, l: Ledger, l': Ledger, q: Ptr) {
    q in l'.node && q in s'.heap.node ==>
      && q in l.node && q in s.heap.node
      && l'.node[q] == l.node[q] && s'.heap.node[q].value == s.heap.node[q].value
      && (l.node[q] in l.text ==> Reads(l', l.node[q], l.text[l.node[q]]))
  }

  predicate FlightFramed(l: Ledger, l': Ledger, u: Tid) {
    u in l'.flight ==>
      && u in l.flight && l'.flight[u] == l.flight[u]
      && (l.flight[u] in l.text ==> Reads(l', l.flight[u], l.text[l.flight[u]]))
  }

  /** What remains to be shown when one thread moves and one node changes. */
  lemma StillSpelled(s: State, s': State, l: Ledger, l': Ledger, t: Tid, p: Ptr)
    requires Spelled(s, l) && SameFlight(s, s', t)
    requires forall q: Ptr | q != p :: NodeFramed(s, s', l, l', q)
    requires forall u: Tid | u != t :: FlightFramed(l, l', u)
    requires NodeReads(s', l', p) && FlightReads(s', l', t)
    ensures Spelled(s', l')
  {
    forall q: Ptr ensures NodeReads(s', l', q) {
      if q != p { assert NodeReads(s, l, q) && NodeFramed(s, s', l, l', q); }
    }
    forall u: Tid ensures FlightReads(s', l', u) {
      if u != t { assert FlightReads(s, l, u) && FlightFramed(l, l', u); }
    }
  }

  lemma HitSpells(s: State, s': State, t: Tid, l: Ledger, x: Str)
    requires t < |s.threads| && HitStep(s, s', t) && Conserved(s, l)
    ensures t < |s'.threads| && Spelled(s', After(s, s', t, l, x))
  {
    assert FlightReads(s, l, t) && NodeReads(s, l, s.threads[t].pc.cur);
    StillSpelled(s, s', l, After(s, s', t, l, x), t, s.threads[t].pc.cur);
  }

  lemma LinkSpells(s: State, s': State, t: Tid, p: Ptr, l: Ledger, x: Str)
    requires t < |s.threads| && LinkStep(s, s', t, p) && Conserved(s, l) && NULL !in s.heap.node
    ensures t < |s'.threads| && Spelled(s', After(s, s', t, l, x))
  {
    assert FlightReads(s, l, t);
    assert NewNode(s, s') == Some(p);
    StillSpelled(s, s', l, After(s, s', t, l, x), t, p);
  }

  /** The new string is not in use, so no other is changed by what is written into it. */
  lemma LocalSpells(s: State, s': State, t: Tid, l: Ledger, x: Str)
    requires t < |s.threads| && LocalStep(s, s', t) && Conserved(s, l) && x !in l.live && NULL !in s.heap.node
    requires ClientStep(s.threads[t], s'.threads[t]) || CallStep(s.threads[t], s'.threads[t])
    ensures Spelled(s', After(s, s', t, l, x))
  {
    forall q | q in l.node ensures l.node[q] != x { assert l.node[q] in l.node.Values; }
    forall u | u in l.flight ensures l.flight[u] != x { assert l.flight[u] in l.flight.Values; }
    assert FlightReads(s, l, t);
    StillSpelled(s, s', l, After(s, s', t, l, x), t, NULL);
  }

  lemma MissSpells(s: State, s': State, t: Tid, l: Ledger, x: Str)
    requires t < |s.threads| && MissStep(s, s', t) && Conserved(s, l) && NULL !in s.heap.node
    ensures t < |s'.threads| && Spelled(s', After(s, s', t, l, x))
  {
    StillSpelled(s, s', l, After(s, s', t, l, x), t, NULL);
  }

  lemma OtherSpells(g: Geometry, s: State, s': State, t: Tid, l: Ledger, x: Str)
    requires t < |s.threads| && OtherStep(g, s, s', t) && Spelled(s, l) && NULL !in s.heap.node
    ensures t < |s'.threads| && Spelled(s', After(s, s', t, l, x))
  {
    OtherLeaves(g, s, s', t, l, x);
    assert FlightReads(s, l, t);
    StillSpelled(s, s', l, l, t, NULL);
  }

  lemma {:induction false} StepSpells(g: Geometry, s: State, s': State, t: Tid, l: Ledger, x: Str)
    requires Step(g, s, s', t) && Inv(g, s) && Conserved(s, l) && x !in l.live
    ensures t < |s'.threads| && Spelled(s', After(s, s', t, l, x))
  {
    NullIsNoNode(g, s);
    if HitStep(s, s', t) {
      HitSpells(s, s', t, l, x);
    } else if exists p: Ptr :: LinkStep(s, s', t, p) {
      var p: Ptr :| LinkStep(s, s', t, p);
      LinkSpells(s, s', t, p, l, x);
    } else if MissStep(s, s', t) {
      MissSpells(s, s', t, l, x);
    } else if && LocalStep(s, s', t)
              && (ClientStep(s.threads[t], s'.threads[t]) || CallStep(s.threads[t], s'.threads[t])) {
      LocalSpells(s, s', t, l, x);
    } else {
      OtherSpells(g, s, s', t, l, x);
    }
  }

  lemma {:induction false} StepConserves(g: Geometry, s: State, s': State, t: Tid, l: Ledger, x: Str)
    requires Step(g, s, s', t) && Inv(g, s) && Conserved(s, l) && x !in l.live
    ensures t < |s'.threads| && Conserved(s', After(s, s', t, l, x))
  {
    StepOwns(g, s, s', t, l, x);
    StepSpells(g, s, s', t, l, x);
  }

  // ---- every run ----

  /** The ledgers along a run: thread ts[i] takes step i, and xs[i] is a string not in use then. */
  ghost predicate Kept(g: Geometry, run: seq<State>, ts: seq<Tid>, xs: seq<Str>, ls: seq<Ledger>) {
    && |run| == |ls| == |ts| + 1 == |xs| + 1 && ls[0] == Ledger({}, map[], map[], map[])
    && forall i: nat | i < |ts| :: KeptAt(g, run, ts, xs, ls, i)
  }

  ghost predicate KeptAt(g: Geometry, run: seq<State>, ts: seq<Tid>, xs: seq<Str>, ls: seq<Ledger>, i: nat) {
    && i < |ts| == |xs|
    && |run| == |ls| == |ts| + 1
    && Step(g, run[i], run[i + 1], ts[i]) && xs[i] !in ls[i].live
    && ts[i] < |run[i + 1].threads| && ls[i + 1] == After(run[i], run[i + 1], ts[i], ls[i], xs[i])
  }

  lemma InvAt(g: Geometry, run: seq<State>, i: nat)
    requires Run(g, run) && i < |run|
    ensures Inv(g, run[i])
  {
    RunRefines(g, run);
  }

  /** Conservation over every run: in each state the live strings are those of the linked nodes and
      one for each add in flight, all different, so nothing is leaked or freed twice; and each reads
      the value of its node, or the value its add will store. */
  lemma {:induction false} StringsConserved(g: Geometry, run: seq<State>, ts: seq<Tid>, xs: seq<Str>, ls: seq<Ledger>,
                                            i: nat)
    requires Run(g, run) && Kept(g, run, ts, xs, ls) && i < |run|
    ensures Conserved(run[i], ls[i])
  {
    if i > 0 {
      StringsConserved(g, run, ts, xs, ls, i - 1);
      InvAt(g, run, i - 1);
      assert KeptAt(g, run, ts, xs, ls, i - 1);
      StepConserves(g, run[i - 1], run[i], ts[i - 1], ls[i - 1], xs[i - 1]);
    }
  }

  /** Every run has such ledgers. */
  lemma {:induction false} LedgersExist(g: Geometry, run: seq<State>)
      returns (ts: seq<Tid>, xs: seq<Str>, ls: seq<Ledger>)
    requires Run(g, run)
    ensures Kept(g, run, ts, xs, ls)
  {
    if |run| == 1 {
      ts, xs, ls := [], [], [Ledger({}, map[], map[], map[])];
    } else {
      var n := |run| - 1;
      forall i: nat | i + 1 < n ensures NextAt(g, run[..n], i) { assert NextAt(g, run, i); }
      var us, ys, ms := LedgersExist(g, run[..n]);
      assert NextAt(g, run, n - 1);
      var t: Tid :| Step(g, run[n - 1], run[n], t);
      var x := Above(ms[n - 1].live);
      InvAt(g, run, n - 1);
      StringsConserved(g, run[..n], us, ys, ms, n - 1);
      StepConserves(g, run[n - 1], run[n], t, ms[n - 1], x);
      ts, xs, ls := us + [t], ys + [x], ms + [After(run[n - 1], run[n], t, ms[n - 1], x)];
      forall i: nat | i < n ensures KeptAt(g, run, ts, xs, ls, i) {
        if i < n - 1 { assert KeptAt(g, run[..n], us, ys, ms, i); }
      }
    }
  }

  /** With no add in flight the live strings are in bijection with the linked nodes, and each reads
      the value of its node. */
  lemma BijectionAtRest(g: Geometry, run: seq<State>, ts: seq<Tid>, xs: seq<Str>, ls: seq<Ledger>, i: nat)
    requires Run(g, run) && Kept(g, run, ts, xs, ls) && i < |run|
    requires forall t: Tid | t < |run[i].threads| :: !Carries(run[i].threads[t])
    ensures ls[i].node.Keys == run[i].heap.node.Keys && ls[i].live == ls[i].node.Values
    ensures forall p | p in run[i].heap.node :: Reads(ls[i], ls[i].node[p], run[i].heap.node[p].value)
    ensures forall p, q | p in ls[i].node && q in ls[i].node && ls[i].node[p] == ls[i].node[q] :: p == q
  {
    StringsConserved(g, run, ts, xs, ls, i);
    assert ls[i].flight.Values == {};
    forall p | p in run[i].heap.node ensures Reads(ls[i], ls[i].node[p], run[i].heap.node[p].value) {
      assert NodeReads(run[i], ls[i], p);
    }
  }
}
