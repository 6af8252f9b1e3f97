/** Two inserts of one key can both report success: from every reachable state, in a store
    with any hash and any number of buckets. */
module LostInsert {
  import opened KvTypes
  import opened Chains
  import opened ChainMemory
  import opened Requests
  import opened Machine
  import opened Scans
  import opened Solo
  import opened SoloRequests

  /** From any state in which two threads are idle, no lock is held and k is absent: both insert k,
      each looks it up before either adds, and both are told that the insert succeeded. In
      state i the first has its reply and its value is stored; in the end it is gone. */
  lemma RacingInserts(g: Geometry, run: seq<State>, t: Tid, u: Tid, k: u64, v: CText, w: CText)
      returns (longer: seq<State>, i: nat)
    requires CanStart(g, run, t) && CanStart(g, run, u) && t != u && k !in Stored(Last(run))
    ensures Run(g, longer) && |run| <= i < |longer| && run <= longer
    ensures t < |longer[i].threads| && longer[i].threads[t].prog == Replied(InsertDone(k))
    ensures Stored(longer[i]) == Stored(Last(run))[k := v]
    ensures Stored(Last(longer)) == Stored(Last(run))[k := w]
    ensures var threads := Last(longer).threads;
            && |threads| == |Last(run).threads|
            && threads[t].prog == threads[u].prog == Replied(InsertDone(k))
  {
    var one := LookAlone(g, run, t, k, v);
    var two := LookAlone(g, one, u, k, w);
    var three := AddAlone(g, two, t, k, v);
    longer := AddAlone(g, three, u, k, w);
    i := |three| - 1;
    assert longer[i] == Last(three);
  }

  /** The initial state, with n threads. */
  lemma Start(g: Geometry, n: nat) returns (run: seq<State>)
    ensures Run(g, run) && Stored(Last(run)) == map[] && |Last(run).threads| == n
    ensures forall t: Tid | t < n :: CanStart(g, run, t)
  {
    run := [State(Heap(seq(g.n, b => NULL), map[]), seq(g.n, b => None), seq(n, t => Thread(Ready, Idle)))];
  }

  /** In a store of every shape there is such a run from the initial state. */
  lemma RacingInsertsBothSucceed(g: Geometry) returns (run: seq<State>, i: nat)
    ensures Run(g, run) && i < |run|
    ensures var last := Last(run);
            && |last.threads| == 2 && last.threads[0].prog == last.threads[1].prog == Replied(InsertDone(0))
            && Stored(run[i]) == map[0 := "a"] && Stored(last) == map[0 := "b"]
  {
    var start := Start(g, 2);
    run, i := RacingInserts(g, start, 0, 1, 0, "a", "b");
  }
}
