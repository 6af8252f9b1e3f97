/** One connection of the daemon: what each line does to the store and the snapshot file, what
    it is answered, and what a whole session may do before it has logged in. */
module Session {
  import opened KvTypes
  import opened Chains
  import opened SnapshotFile
  import opened Commands
  import opened Daemon

  // ---- what read() on the socket yields ----

  type Packet = s: seq<Byte> | 0 < |s| < 1024 witness ['\0']

  // answered: the reply to the packet could be written.
  datatype Read = Closed | Interrupted | Broken | Data(bytes: Packet, answered: bool)

  /** A read after which the loop ends: end of input, an error, or an answer that could not be sent. */
  predicate Stops(r: Read) {
    r.Closed? || r.Broken? || (r.Data? && !r.answered)
  }

  /** Read p is made: none before it ends the loop. */
  ghost predicate Reached(input: seq<Read>, p: nat) {
    p < |input| && forall q | 0 <= q < p :: !Stops(input[q])
  }

  /** at lists in order the reads that are made and bring a packet. */
  ghost predicate Packets(input: seq<Read>, at: seq<nat>) {
    && (forall i, j | 0 <= i < j < |at| :: at[i] < at[j])
    && forall p: nat :: p in at <==> p < |input| && input[p].Data? && Reached(input, p)
  }

  function PacketAt(input: seq<Read>, p: nat): Packet {
    if p < |input| && input[p].Data? then input[p].bytes else ['\0']
  }

  /** The packets that these reads bring. */
  function PacketsAt(input: seq<Read>, at: seq<nat>): (ps: seq<Packet>)
    ensures |ps| == |at| && forall i | 0 <= i < |at| :: ps[i] == PacketAt(input, at[i])
  {
    seq(|at|, i requires 0 <= i < |at| => PacketAt(input, at[i]))
  }

  function Shifted(at: seq<nat>): (r: seq<nat>)
    ensures |r| == |at| && forall i | 0 <= i < |at| :: r[i] == at[i] + 1
  {
    seq(|at|, i requires 0 <= i < |at| => at[i] + 1)
  }

  lemma ReachedNext(input: seq<Read>, p: nat)
    requires input != [] && !Stops(input[0])
    ensures Reached(input, p + 1) <==> Reached(input[1..], p)
  {
    if Reached(input, p + 1) {
      forall q | 0 <= q < p ensures !Stops(input[1..][q]) { assert input[1..][q] == input[q + 1]; }
    }
    if Reached(input[1..], p) {
      forall q | 0 <= q < p + 1 ensures !Stops(input[q]) { if q > 0 { assert input[q] == input[1..][q - 1]; } }
    }
  }

  /** The packets after a first read that does not end the loop. */
  lemma {:induction false} PacketsNext(input: seq<Read>, at: seq<nat>)
    requires input != [] && !Stops(input[0]) && Packets(input[1..], at)
    ensures Packets(input, (if input[0].Data? then [0] else []) + Shifted(at))
  {
    var r := (if input[0].Data? then [0] else []) + Shifted(at);
    forall p: nat ensures p in r <==> p < |input| && input[p].Data? && Reached(input, p) {
      if p > 0 {
        ReachedNext(input, p - 1);
        assert p in Shifted(at) <==> p - 1 in at by {
          if p - 1 in at { var i :| 0 <= i < |at| && at[i] == p - 1; assert Shifted(at)[i] == p; }
        }
      }
    }
  }

  /** The packets a connection serves before its loop ends. */
  function Served(input: seq<Read>): seq<Packet>
    decreases input
  {
    if input == [] || input[0].Closed? || input[0].Broken? then []
    else if input[0].Interrupted? then Served(input[1..])
    else [input[0].bytes] + (if input[0].answered then Served(input[1..]) else [])
  }

  /** done, and then what rest still holds, is what input holds. */
  ghost predicate Ahead(input: seq<Read>, done: seq<Packet>, rest: seq<Read>) {
    done + Served(rest) == Served(input)
  }

  function After(rest: seq<Read>): (r: seq<Read>)
    requires rest != []
    ensures |r| < |rest|
  {
    var n := rest[0];
    if n.Interrupted? || (n.Data? && n.answered) then rest[1..] else []
  }

  lemma AheadStep(input: seq<Read>, done: seq<Packet>, rest: seq<Read>)
    requires Ahead(input, done, rest) && rest != []
    ensures Ahead(input, if rest[0].Data? then done + [rest[0].bytes] else done, After(rest))
  {
  }

  lemma PacketNext(input: seq<Read>, p: nat)
    requires input != []
    ensures PacketAt(input, p + 1) == PacketAt(input[1..], p)
  {
    assert p + 1 < |input| ==> input[p + 1] == input[1..][p];
  }

  lemma {:induction false} PacketsAfter(input: seq<Read>, first: seq<nat>, at: seq<nat>)
    requires input != []
    ensures PacketsAt(input, first + Shifted(at)) == PacketsAt(input, first) + PacketsAt(input[1..], at)
  {
    forall i | 0 <= i < |at| ensures PacketAt(input, at[i] + 1) == PacketAt(input[1..], at[i]) {
      PacketNext(input, at[i]);
    }
  }

  lemma {:induction false} FirstStops(input: seq<Read>) returns (at: seq<nat>)
    requires input == [] || Stops(input[0])
    ensures Packets(input, at) && Served(input) == PacketsAt(input, at)
  {
    at := if input != [] && input[0].Data? then [0] else [];
    if input != [] { forall p: nat | p > 0 ensures !Reached(input, p) {} }
  }

  /** They are those that are read. */
  lemma {:induction false} ServedPackets(input: seq<Read>) returns (at: seq<nat>)
    ensures Packets(input, at) && Served(input) == PacketsAt(input, at)
  {
    if input == [] || Stops(input[0]) {
      at := FirstStops(input);
    } else {
      var later := ServedPackets(input[1..]);
      PacketsNext(input, later);
      var first := if input[0].Data? then [0] else [];
      PacketsAfter(input, first, later);
      at := first + Shifted(later);
    }
  }

  /** What they ask for: each is read up to its first NUL. */
  function Parsed(ps: seq<Packet>): (cs: seq<Command>)
    ensures |cs| == |ps| && forall i | 0 <= i < |ps| :: cs[i] == ParseCommand(CString(ps[i]))
  {
    seq(|ps|, i requires 0 <= i < |ps| => ParseCommand(CString(ps[i])))
  }

  lemma ParsedNext(ps: seq<Packet>, p: Packet)
    ensures Parsed(ps + [p]) == Parsed(ps) + [ParseCommand(CString(p))]
  {
  }

  // ---- one command ----

  const LOGGED_IN: CText := "OK\n"
  const LOGIN_FAILED: CText := "FAIL\n"
  const NO_USER: CText := "No username provided"
  const NO_PASSWORD: CText := "No password provided"
  const NOT_LOGGED_IN: CText := "Connection not authenticated!\n"
  const SNAP: CText := "Snap"
  const BAD_COMMAND: CText := "Invalid command format. Expected: "
  const INSERT_NEEDS_VALUE: CText := "KV_INSERT requires a value\n"
  const UPDATE_NEEDS_VALUE: CText := "KV_UPDATE requires a value\n"
  const UNKNOWN: CText := "Unknown operation: "

  /** The answer to a line that is not carried out; the login check comes before the rest of
      the line is looked at. */
  function Refusal(auth: bool, c: Command): CText {
    if c.Empty? then BAD_COMMAND + "kv <operation> ...\n"
    else if c.AuthNoUser? then NO_USER
    else if c.AuthNoPassword? then NO_PASSWORD
    else if c.Auth? then LOGIN_FAILED
    else if !auth then NOT_LOGGED_IN
    else match c
      case NoKey => BAD_COMMAND + "kv <operation> <key> "
      case NoValue(op) => if op.KvInsert? then INSERT_NEEDS_VALUE else UPDATE_NEEDS_VALUE
      case Unknown(name) => UNKNOWN + name + "\n"
      case _ => []
  }

  /** The store and the snapshot file. */
  datatype State = State(table: Table, file: Option<seq<Byte>>)

  /** What stays fixed during a session. */
  datatype Setting = Setting(g: Geometry, pam: Oracle, reliable: bool)

  /** What a command does from s to s' and answers. */
  ghost predicate Does(w: Setting, auth: bool, c: Command, s: State, s': State, answer: CText) {
    && |s.table| == w.g.n
    && (if auth && c.TakeSnapshot? then
         && s'.table == s.table && answer == SNAP
         && (|Flatten(s.table)| < 0x8000_0000 ==> SaveOutcome(s.file, s'.file, s.table, w.reliable))
       else if auth && MessageOf(c).Some? then
         var (op, k, field) := MessageOf(c).value;
         s'.file == s.file && Answers(w.g, op, k, CString(field), s.table, s'.table, answer, w.reliable)
       else
         s' == s && answer == if LogsIn(w.pam, c) then LOGGED_IN
                              else if auth && c.Kv? then BAD_KEY
                              else Refusal(auth, c))
  }

  lemma RefusalTexts(auth: bool, c: Command)
    ensures c.Empty? ==> Refusal(auth, c) == "Invalid command format. Expected: " + "kv <operation> ...\n"
    ensures c.AuthNoUser? ==> Refusal(auth, c) == "No username provided"
    ensures c.AuthNoPassword? ==> Refusal(auth, c) == "No password provided"
    ensures c.Auth? ==> Refusal(auth, c) == "FAIL\n"
    ensures !auth && (c.TakeSnapshot? || c.NoKey? || c.NoValue? || c.Unknown? || c.Kv?) ==>
              Refusal(auth, c) == "Connection not authenticated!\n"
    ensures auth && c.NoKey? ==>
              Refusal(auth, c) == "Invalid command format. Expected: " + "kv <operation> <key> "
    ensures auth && c == NoValue(KvInsert) ==> Refusal(auth, c) == "KV_INSERT requires a value\n"
    ensures auth && c == NoValue(KvUpdate) ==> Refusal(auth, c) == "KV_UPDATE requires a value\n"
    ensures auth && c.Unknown? ==> Refusal(auth, c) == "Unknown operation: " + c.name + "\n"
  {
  }

  /** A command that is not carried out changes nothing; its answer is one of these texts, an AUTH is
      answered by its outcome, and an operation with an unreadable key as such. */
  lemma RefusedExactly(w: Setting, auth: bool, c: Command, s: State, s': State, answer: CText)
    requires Does(w, auth, c, s, s', answer) && !(auth && (c.TakeSnapshot? || MessageOf(c).Some?))
    ensures s' == s
    ensures c.Auth? ==> answer == if w.pam(c.user, c.password) then "OK\n" else "FAIL\n"
    ensures auth && c.Kv? ==> answer == "Invalid key: expected unsigned integer\n"
    ensures !c.Auth? && !(auth && c.Kv?) ==> answer == Refusal(auth, c)
  {
  }

  /** A snapshot is answered the same whatever came of it, and leaves the store alone. */
  lemma SnapshotAnswered(w: Setting, s: State, s': State, answer: CText)
    requires Does(w, true, TakeSnapshot, s, s', answer)
    ensures s'.table == s.table && answer == "Snap"
    ensures |Flatten(s.table)| < 0x8000_0000 ==> SaveOutcome(s.file, s'.file, s.table, w.reliable)
  {
  }

  // ---- a whole session ----

  /** Each command does what it does with the flag its predecessors left. */
  ghost predicate SessionRun(w: Setting, cs: seq<Command>, answers: seq<CText>, states: seq<State>) {
    && |answers| == |cs| && |states| == |cs| + 1
    && forall i | 0 <= i < |cs| :: StepAt(w, cs, answers, states, i)
  }

  ghost predicate StepAt(w: Setting, cs: seq<Command>, answers: seq<CText>, states: seq<State>, i: nat) {
    && i < |cs| == |answers|
    && |states| == |cs| + 1
    && |states[i].table| == w.g.n
    && Does(w, AuthAfterAll(w.pam, cs[..i]), cs[i], states[i], states[i + 1], answers[i])
  }

  lemma Extend(w: Setting, cs: seq<Command>, answers: seq<CText>, states: seq<State>,
               c: Command, answer: CText, s: State)
    requires SessionRun(w, cs, answers, states) && |states[|cs|].table| == w.g.n
    requires Does(w, AuthAfterAll(w.pam, cs), c, states[|cs|], s, answer)
    ensures SessionRun(w, cs + [c], answers + [answer], states + [s])
    ensures AuthAfterAll(w.pam, cs + [c]) == AuthAfter(w.pam, AuthAfterAll(w.pam, cs), c)
  {
    assert (cs + [c])[..|cs|] == cs;
    forall i | 0 <= i < |cs| + 1 ensures StepAt(w, cs + [c], answers + [answer], states + [s], i) {
      if i < |cs| {
        assert StepAt(w, cs, answers, states, i);
        assert (cs + [c])[..i] == cs[..i];
      }
    }
  }

  /** A command of a session changes the store or the file only when it names an operation and
      some earlier command was a successful AUTH. */
  lemma OnlyAfterLogin(w: Setting, cs: seq<Command>, answers: seq<CText>, states: seq<State>, i: nat)
    requires SessionRun(w, cs, answers, states) && i < |cs| && states[i + 1] != states[i]
    ensures Reaches(cs[i]) && exists j :: 0 <= j < i && LogsIn(w.pam, cs[j])
  {
    assert StepAt(w, cs, answers, states, i);
    SessionLaw(w.pam, cs[..i]);
    var j :| 0 <= j < i && LogsIn(w.pam, cs[..i][j]);
    assert LogsIn(w.pam, cs[j]);
  }

  lemma RefusedStep(w: Setting, cs: seq<Command>, answers: seq<CText>, states: seq<State>, i: nat)
    requires SessionRun(w, cs, answers, states) && i < |cs|
    requires forall j | 0 <= j <= i :: !LogsIn(w.pam, cs[j])
    ensures states[i + 1] == states[i] && answers[i] == Refusal(false, cs[i])
  {
    assert StepAt(w, cs, answers, states, i);
    SessionLaw(w.pam, cs[..i]);
  }

  /** Up to its first successful AUTH a session leaves store and file as it found them, and no
      operation is answered. */
  lemma {:induction false} NothingBeforeLogin(w: Setting, cs: seq<Command>, answers: seq<CText>,
                                              states: seq<State>, n: nat)
    requires SessionRun(w, cs, answers, states) && n <= |cs|
    requires forall j | 0 <= j < n :: !LogsIn(w.pam, cs[j])
    ensures forall i | 0 <= i <= n :: states[i] == states[0]
    ensures forall i | 0 <= i < n :: answers[i] == Refusal(false, cs[i])
  {
    if n > 0 {
      NothingBeforeLogin(w, cs, answers, states, n - 1);
      RefusedStep(w, cs, answers, states, n - 1);
    }
  }

  class Connection {
    const server: Server
    const pam: Oracle
    var authenticated: bool

    constructor (server: Server, pam: Oracle)
      ensures this.server == server && this.pam == pam && !authenticated
    {
      this.server, this.pam, authenticated := server, pam, false;
    }

    ghost function Now(): State
      reads server, server.kernel.store
    {
      State(server.kernel.store.table, server.file)
    }

    ghost function Fixed(): Setting {
      Setting(server.kernel.store.g, pam, server.kernel.store.kheap.reliable)
    }

    /** An operation on a key, once logged in. */
    method Operate(c: Command) returns (answer: CText)
      requires server.kernel.Ready() && c.Kv?
      modifies server.kernel.store, server.kernel.store.kheap,
               server.kernel.store.buckets, server.kernel.store.bucketLocks, server.kernel.store.entries
      ensures server.kernel.Ready() && fresh(server.kernel.store.entries - old(server.kernel.store.entries))
      ensures server.kernel.store.buckets == old(server.kernel.store.buckets)
      ensures server.kernel.store.bucketLocks == old(server.kernel.store.bucketLocks)
      ensures Does(Fixed(), true, c, old(Now()), Now(), answer)
    {
      answer := server.DoKvOperation(c.op, c.key, c.value);
    }

    /** parse_and_handle_command. */
    method HandleCommand(command: CText) returns (answer: CText)
      requires server.kernel.Ready()
      modifies `authenticated, server`file, server.kernel.store, server.kernel.store.kheap,
               server.kernel.store.buckets, server.kernel.store.bucketLocks, server.kernel.store.entries
      ensures server.kernel.Ready() && fresh(server.kernel.store.entries - old(server.kernel.store.entries))
      ensures server.kernel.store.buckets == old(server.kernel.store.buckets)
      ensures server.kernel.store.bucketLocks == old(server.kernel.store.bucketLocks)
      ensures var c := ParseCommand(command);
              authenticated == (old(authenticated) || (c.Auth? && pam(c.user, c.password)))
      ensures Does(Fixed(), old(authenticated), ParseCommand(command), old(Now()), Now(), answer)
    {
      var c := ParseCommand(command);
      if c.Auth? && pam(c.user, c.password) {
        authenticated := true;
        return LOGGED_IN;
      }
      if authenticated && c.TakeSnapshot? {
        server.Save();
        return SNAP;
      }
      if authenticated && c.Kv? {
        answer := Operate(c);
        return;
      }
      answer := Refusal(authenticated, c);
    }

    /** So far the session has carried out cs, and states lists what it passed through. */
    ghost predicate Recorded(cs: seq<Command>, answers: seq<CText>, states: seq<State>)
      reads `authenticated, server, server.kernel.store
    {
      && authenticated == AuthAfterAll(pam, cs)
      && SessionRun(Fixed(), cs, answers, states) && states[|cs|] == Now()
    }

    method Serve(command: CText, ghost cs: seq<Command>, ghost answers: seq<CText>, ghost states: seq<State>)
        returns (answer: CText)
      requires server.kernel.Ready() && Recorded(cs, answers, states)
      modifies `authenticated, server`file, server.kernel.store, server.kernel.store.kheap,
               server.kernel.store.buckets, server.kernel.store.bucketLocks, server.kernel.store.entries
      ensures server.kernel.Ready() && fresh(server.kernel.store.entries - old(server.kernel.store.entries))
      ensures server.kernel.store.buckets == old(server.kernel.store.buckets)
      ensures server.kernel.store.bucketLocks == old(server.kernel.store.bucketLocks)
      ensures Recorded(cs + [ParseCommand(command)], answers + [answer], states + [Now()])
    {
      answer := HandleCommand(command);
      Extend(Fixed(), cs, answers, states, ParseCommand(command), answer, Now());
    }

    /** handle_client on a fresh connection: one answer, in order, for each packet that is read, and
        the states passed through; at says which reads these were. */
    method HandleClient(input: seq<Read>) returns (answers: seq<CText>, ghost states: seq<State>, ghost at: seq<nat>)
      requires server.kernel.Ready() && !authenticated
      modifies `authenticated, server`file, server.kernel.store, server.kernel.store.kheap,
               server.kernel.store.buckets, server.kernel.store.bucketLocks, server.kernel.store.entries
      ensures Packets(input, at) && |answers| == |at|
      ensures server.kernel.Ready() && authenticated == AuthAfterAll(pam, Parsed(PacketsAt(input, at)))
      ensures SessionRun(Fixed(), Parsed(PacketsAt(input, at)), answers, states)
      ensures states[0] == old(Now()) && states[|states| - 1] == Now()
    {
      var rest := input;
      ghost var done: seq<Packet> := [];
      answers, states := [], [Now()];
      while rest != []
        invariant server.kernel.Ready() && fresh(server.kernel.store.entries - old(server.kernel.store.entries))
        invariant server.kernel.store.buckets == old(server.kernel.store.buckets)
        invariant server.kernel.store.bucketLocks == old(server.kernel.store.bucketLocks)
        invariant Ahead(input, done, rest)
        invariant |states| > 0 && states[0] == old(Now()) && Recorded(Parsed(done), answers, states)
        decreases |rest|
      {
        AheadStep(input, done, rest);
        if rest[0].Data? {
          var command := CString(rest[0].bytes);
          var answer := Serve(command, Parsed(done), answers, states);
          ParsedNext(done, rest[0].bytes);
          done, answers, states := done + [rest[0].bytes], answers + [answer], states + [Now()];
        }
        rest := After(rest);
      }
      assert done == Served(input);
      at := ServedPackets(input);
    }
  }
}
