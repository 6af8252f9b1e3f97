/** What a thread in the kernel runs: the ioctl handlers and the daemon's snapshot as
    programs that call one kv_hash operation after another. Both machines run them. */
module Requests {
  import opened KvTypes

  datatype Op =
    | Add(key: u64, value: CText)
    | Remove(key: u64)
    | Lookup(key: u64, room: nat)   // room: bytes in the caller's buffer
    | Count
    | Snapshot(max: nat)

  predicate Keyed(op: Op) {
    op.Add? || op.Remove? || op.Lookup?
  }

  datatype Result =
    | Ok
    | Err(errno: int)
    | Found(value: CText)
    | Counted(count: nat)
    | Copied(out: seq<Entry>)

  datatype Request =
    | Insert(key: u64, value: CText)
    | Update(key: u64, value: CText)
    | GetKey(key: u64)
    | DeleteKey(key: u64)
    | SaveSnapshot             // KV_COUNT, then KV_SNAPSHOT with that capacity
    | SnapshotIoctl(cap: nat)  // KV_SNAPSHOT alone, any capacity

  datatype Reply =
    | InsertDone(key: u64) | InsertExists(key: u64)
    | UpdateDone(key: u64) | UpdateMissing(key: u64)
    | NoMemory
    | GotValue(key: u64, value: CText) | GetMissing(key: u64)
    | DeleteDone(key: u64) | DeleteMissing(key: u64)
    | SaveNothing
    | SaveMismatch(cap: nat)
    | SaveCopied(cap: nat, out: seq<Entry>)
    | SaveFailed

  // Where a handler is: each state but Ready and Replied waits for one operation.
  datatype Prog =
    | Ready
    | InsertLook(key: u64, value: CText) | InsertAdd(key: u64, value: CText)
    | UpdateLook(key: u64, value: CText) | UpdateAdd(key: u64, value: CText)
    | GetLook(key: u64)
    | DeleteOne(key: u64)
    | SaveCount | SaveRecount(cap: nat) | SaveCopy(cap: nat)
    | Replied(reply: Reply)

  function Begin(r: Request): Prog {
    match r
    case Insert(k, v) => InsertLook(k, v)
    case Update(k, v) => UpdateLook(k, v)
    case GetKey(k) => GetLook(k)
    case DeleteKey(k) => DeleteOne(k)
    case SaveSnapshot => SaveCount
    case SnapshotIoctl(cap) => SaveRecount(cap)
  }

  /** The kv_hash call a handler is waiting for. */
  function OpOf(p: Prog): Option<Op> {
    match p
    case Ready => None
    case InsertLook(k, v) => Some(Lookup(k, MAX_VALUE_LEN))
    case InsertAdd(k, v) => Some(Add(k, v))
    case UpdateLook(k, v) => Some(Lookup(k, MAX_VALUE_LEN))
    case UpdateAdd(k, v) => Some(Add(k, v))
    case GetLook(k) => Some(Lookup(k, MAX_VALUE_LEN))
    case DeleteOne(k) => Some(Remove(k))
    case SaveCount => Some(Count)
    case SaveRecount(cap) => Some(Count)
    case SaveCopy(cap) => Some(Snapshot(cap))
    case Replied(_) => None
  }

  /** A handler may go from p to q when its operation returns res. A negative lookup result
      is not told apart: -ENOSPC counts as "absent", as in the handlers. The one choice
      left open is whether the snapshot buffer could be allocated. */
  predicate Resumes(p: Prog, res: Result, q: Prog) {
    match p
    case InsertLook(k, v) => q == if res.Found? then Replied(InsertExists(k)) else InsertAdd(k, v)
    case InsertAdd(k, v) => q == Replied(if res.Ok? then InsertDone(k) else NoMemory)
    case UpdateLook(k, v) => q == if res.Found? then UpdateAdd(k, v) else Replied(UpdateMissing(k))
    case UpdateAdd(k, v) => q == Replied(if res.Ok? then UpdateDone(k) else NoMemory)
    case GetLook(k) => q == Replied(if res.Found? then GotValue(k, res.value) else GetMissing(k))
    case DeleteOne(k) => q == Replied(if res.Ok? then DeleteDone(k) else DeleteMissing(k))
    case SaveCount =>
      (match res
       case Counted(n) => if n == 0 then q == Replied(SaveNothing) else q == SaveRecount(n) || q == Replied(SaveFailed)
       case _ => q == Replied(SaveFailed))
    case SaveRecount(cap) =>
      (match res
       case Counted(n) =>
         if n == cap then q == SaveCopy(cap) || q == Replied(SaveFailed) else q == Replied(SaveMismatch(cap))
       case _ => q == Replied(SaveFailed))
    case SaveCopy(cap) => q == Replied(if res.Copied? then SaveCopied(cap, res.out) else SaveFailed)
    case Ready => false
    case Replied(_) => false
  }

  /** What a lookup with a 64-byte buffer can deliver. */
  predicate Readable(m: map<u64, CText>, k: u64) {
    k in m && |m[k]| < 64
  }

  // ---- what a bucket scan accumulates ----

  datatype Acc = Tally(count: nat) | Copies(out: seq<Entry>, max: nat)

  /** strscpy into a 64-byte field. */
  function Clip(v: CText): (r: CText)
    ensures |r| < MAX_VALUE_LEN
    ensures |v| < MAX_VALUE_LEN ==> r == v
  {
    if |v| < MAX_VALUE_LEN then v else v[..MAX_VALUE_LEN - 1]
  }

  function ClipAll(es: seq<Entry>): (r: seq<Entry>)
    ensures |r| == |es|
    ensures forall i | 0 <= i < |r| :: r[i] == Entry(es[i].key, Clip(es[i].value))
  {
    seq(|es|, i requires 0 <= i < |es| => Entry(es[i].key, Clip(es[i].value)))
  }

  function StartAcc(op: Op): Acc
    requires !Keyed(op)
  {
    if op.Count? then Tally(0) else Copies([], op.max)
  }

  function Absorb(a: Acc, es: seq<Entry>): Acc {
    match a
    case Tally(n) => Tally(n + |es|)
    case Copies(out, max) => Copies(out + ClipAll(es), max)
  }

  /** What fits into a buffer for max entries. */
  function First(es: seq<Entry>, max: nat): seq<Entry> {
    if |es| <= max then es else es[..max]
  }

  predicate Full(a: Acc) {
    a.Copies? && |a.out| >= a.max
  }

  function ResultOf(a: Acc): Result {
    match a
    case Tally(n) => Counted(n)
    case Copies(out, _) => Copied(out)
  }
}
