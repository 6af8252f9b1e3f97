/** user/daemon/daemon.cpp: operations carried out against the module, and the snapshot file. */
module Daemon {
  import opened KvTypes
  import opened Chains
  import opened Requests
  import opened Decimal
  import opened Restore
  import opened SnapshotFile
  import opened Kernel
  import opened Commands

  // ---- what a command answers ----

  function Quoted(op: CText, k: u64, outcome: CText): CText {
    op + "(\"" + ToText(k) + "\")" + outcome
  }

  function IntText(x: int): CText {
    if x < 0 then "-" + ToText(-x) else ToText(x)
  }

  function WithStatus(text: CText, status: int): CText {
    text + "(status=" + IntText(status) + ")\n"
  }

  const GET_NAME: CText := "GET"
  const INSERT_NAME: CText := "INSERT"
  const UPDATE_NAME: CText := "UPDATE"
  const DELETE_NAME: CText := "DELETE"
  const SUCCEEDED: CText := " succeeded\n"
  const NO_SUCH_KEY: CText := " failed: key does not exist\n"
  const KEY_TAKEN: CText := " failed, key already exists, use update\n"
  const BAD_KEY: CText := "Invalid key: expected unsigned integer\n"

  function Failed(status: int): CText {
    WithStatus(" failed ", status)
  }

  function NotDeleted(status: int): CText {
    WithStatus(" failed: key not found or error ", status)
  }

  /** The numbers that are reported, as they are printed. */
  lemma StatusTexts()
    ensures Failed(1) == " failed (status=1)\n"
    ensures Failed(-ENOMEM) == " failed (status=-12)\n"
    ensures NotDeleted(1) == " failed: key not found or error (status=1)\n"
  {
    assert ToText(1) == "1";
    assert ToText(12) == ToText(1) + ['2'];
    assert IntText(1) == "1" && IntText(-12) == "-12";
  }

  /** check_value fails on the reply to a get of a missing key. */
  lemma {:induction false} MissingFails(k: u64)
    ensures CheckedValue(Quoted(GET_NAME, k, NO_SUCH_KEY)) == None
  {
    assert forall c | c in ToText(k) :: IsDigit(c);
    NoTag(Quoted(GET_NAME, k, NO_SUCH_KEY));
  }

  // Each: the change from table t to t' and the answer to a request, allocation failures included.

  predicate GetAnswers(g: Geometry, k: u64, t: Table, t': Table, answer: CText) {
    && |t| == g.n
    && t' == t
    && answer == match Get(g, t, k) case Some(v) => GetResponse(k, v) case None => Quoted(GET_NAME, k, NO_SUCH_KEY)
  }

  predicate InsertAnswers(g: Geometry, k: u64, v: CText, t: Table, t': Table, answer: CText, reliable: bool) {
    && |t| == g.n
    && (if Get(g, t, k).Some? then
         t' == t && answer == Quoted(INSERT_NAME, k, KEY_TAKEN)
       else
         || (t' == Put(g, t, k, v) && answer == Quoted(INSERT_NAME, k, SUCCEEDED))
         || (t' == t && !reliable && answer == Quoted(INSERT_NAME, k, Failed(-ENOMEM))))
  }

  predicate UpdateAnswers(g: Geometry, k: u64, v: CText, t: Table, t': Table, answer: CText, reliable: bool) {
    && |t| == g.n
    && (if Get(g, t, k).None? then
         t' == t && answer == Quoted(UPDATE_NAME, k, Failed(1))
       else
         || (t' == Put(g, t, k, v) && answer == Quoted(UPDATE_NAME, k, SUCCEEDED))
         || (t' == t && !reliable && answer == Quoted(UPDATE_NAME, k, Failed(-ENOMEM))))
  }

  predicate DeleteAnswers(g: Geometry, k: u64, t: Table, t': Table, answer: CText) {
    && |t| == g.n
    && t' == Delete(g, t, k)
    && answer == Quoted(DELETE_NAME, k, if Get(g, t, k).Some? then SUCCEEDED else NotDeleted(1))
  }

  predicate Answers(g: Geometry, op: KvOp, k: u64, v: CText, t: Table, t': Table, answer: CText, reliable: bool) {
    match op
    case KvGet => GetAnswers(g, k, t, t', answer)
    case KvInsert => InsertAnswers(g, k, v, t, t', answer, reliable)
    case KvUpdate => UpdateAnswers(g, k, v, t, t', answer, reliable)
    case KvDelete => DeleteAnswers(g, k, t, t', answer)
  }

  /** The start of every answer about a key. */
  function About(op: string, k: u64): string {
    op + "(\"" + ToText(k) + "\")"
  }

  // What an operation does to the map, and the text that tells it: a get or delete says whether the key
  // was there, an insert stores only a new key and an update only replaces, unless memory ran out.

  lemma {:induction false} GetAnswered(g: Geometry, k: u64, t: Table, t': Table, answer: CText)
    requires WellFormed(g, t) && GetAnswers(g, k, t, t', answer)
    ensures var m := ToMap(g, t);
            && WellFormed(g, t') && ToMap(g, t') == m
            && answer == if k in m then "GET(\"" + ToText(k) + "\") " + ARROW + " \"" + m[k] + "\"\n"
                         else About("GET", k) + " failed: key does not exist\n"
  {
    assert k in ToMap(g, t) <==> Get(g, t, k).Some?;
  }

  lemma {:induction false} DeleteAnswered(g: Geometry, k: u64, t: Table, t': Table, answer: CText)
    requires WellFormed(g, t) && DeleteAnswers(g, k, t, t', answer)
    ensures var m := ToMap(g, t);
            && WellFormed(g, t') && ToMap(g, t') == m - {k}
            && answer == if k in m then About("DELETE", k) + " succeeded\n"
                         else About("DELETE", k) + " failed: key not found or error (status=1)\n"
  {
    StatusTexts();
    DeleteRefines(g, t, k);
    assert k in ToMap(g, t) <==> Get(g, t, k).Some?;
  }

  lemma {:induction false} InsertAnswered(g: Geometry, k: u64, v: CText, t: Table, t': Table, answer: CText,
                                          reliable: bool)
    requires WellFormed(g, t) && InsertAnswers(g, k, v, t, t', answer, reliable)
    ensures var m, m' := ToMap(g, t), ToMap(g, t');
            && WellFormed(g, t')
            && if k in m then
                 m' == m && answer == About("INSERT", k) + " failed, key already exists, use update\n"
               else
                 || (m' == m[k := v] && answer == About("INSERT", k) + " succeeded\n")
                 || (m' == m && !reliable && answer == About("INSERT", k) + " failed (status=-12)\n")
  {
    StatusTexts();
    PutRefines(g, t, k, v);
    assert k in ToMap(g, t) <==> Get(g, t, k).Some?;
  }

  lemma {:induction false} UpdateAnswered(g: Geometry, k: u64, v: CText, t: Table, t': Table, answer: CText,
                                          reliable: bool)
    requires WellFormed(g, t) && UpdateAnswers(g, k, v, t, t', answer, reliable)
    ensures var m, m' := ToMap(g, t), ToMap(g, t');
            && WellFormed(g, t')
            && if k !in m then
                 m' == m && answer == About("UPDATE", k) + " failed (status=1)\n"
               else
                 || (m' == m[k := v] && answer == About("UPDATE", k) + " succeeded\n")
                 || (m' == m && !reliable && answer == About("UPDATE", k) + " failed (status=-12)\n")
  {
    StatusTexts();
    PutRefines(g, t, k, v);
    assert k in ToMap(g, t) <==> Get(g, t, k).Some?;
  }

  // ---- the snapshot file ----

  /** file holds the whole table t. */
  ghost predicate Saves(file: seq<Byte>, t: Table) {
    && Complete(file) && |file| == 16 + 80 * |Flatten(t)|
    && DecodeHeader(file).status == 0
    && EntriesIn(file) == ClipAll(Flatten(t))
    && FieldsTerminated(file)
  }

  /** What a save among nobody else does to the file: an empty table leaves it alone; otherwise
      it holds the table afterwards, unless an allocation failed and it is as before. */
  ghost predicate SaveOutcome(before: Option<seq<Byte>>, after: Option<seq<Byte>>, t: Table, reliable: bool) {
    if Flatten(t) == [] then after == before
    else (after.Some? && Saves(after.value, t)) || (!reliable && after == before)
  }

  ghost predicate FieldsTerminated(file: seq<Byte>) {
    Complete(file) && forall i | 0 <= i < DecodeHeader(file).count :: NUL in FieldOf(file, i)
  }

  /** Every record that an insert would store has a terminated value. */
  ghost predicate Replayable(g: Geometry, t: Table, file: seq<Byte>) {
    && |t| == g.n && Complete(file)
    && forall i | 0 <= i < DecodeHeader(file).count ::
         Get(g, t, EntriesIn(file)[i].key).None? ==> NUL in FieldOf(file, i)
  }

  function FieldOf(file: seq<Byte>, i: nat): Field
    requires Complete(file) && i < DecodeHeader(file).count
  {
    RoomFor(file, i);
    DecodeRecord(RecordBytes(file, i)).value
  }

  lemma {:induction false} FileSaves(h: Header, pad: Pad, t: Table, pads: seq<Pad>)
    requires |pads| == |Flatten(t)| == h.count && h.status == 0
    ensures Saves(EncodeFile(h, pad, RecordsOf(Flatten(t)), pads), t)
  {
    var es := Flatten(t);
    var file := EncodeFile(h, pad, RecordsOf(es), pads);
    FileCodec(h, pad, RecordsOf(es), pads);
    SavedEntriesReadBack(h, pad, es, pads);
    forall i | 0 <= i < h.count ensures NUL in FieldOf(file, i) {
      var v := Clip(es[i].value);
      assert FieldOf(file, i) == ZeroPad(v) && ZeroPad(v)[|v|] == NUL;
    }
  }

  /** What is written holds the table, when every record has been copied. */
  lemma CopySaves(file: Option<seq<Byte>>, h: Header, pad: Pad, rs: seq<Record>, pads: seq<Pad>, t: Table)
    requires |pads| == |rs| == h.count && h.status == 0 && file == Some(EncodeFile(h, pad, rs, pads))
    ensures rs == RecordsOf(Flatten(t)) ==> Saves(file.value, t)
  {
    if rs == RecordsOf(Flatten(t)) { FileSaves(h, pad, t, pads); }
  }

  /** A saved file is restored as it is, whatever junk is in memory. */
  lemma SavedImage(file: seq<Byte>, t: Table, junk: seq<Byte>)
    requires Saves(file, t)
    ensures Complete(Image(file, junk)) && EntriesIn(Image(file, junk)) == EntriesIn(file)
    ensures FieldsTerminated(Image(file, junk))
  {
    ImageOfComplete(file, junk);
    forall i | 0 <= i < DecodeHeader(file).count ensures NUL in FieldOf(Image(file, junk), i) {
      RoomFor(file, i);
      assert NUL in FieldOf(file, i);
    }
  }

  /** What was saved from a table with short values restores, into an empty table of any hash and
      size, to the same map; into one of the same hash and size, to the reversed chains. */
  lemma {:induction false} SavedRestores(g: Geometry, t: Table, h: Geometry, file: seq<Byte>)
    requires WellFormed(g, t) && AllShort(g, t) && Saves(file, t)
    ensures Restored(h, file) == ToMap(g, t)
    ensures RestoreAll(g, EmptyTable(g), EntriesIn(file)) == ReverseChains(t)
  {
    FlattenIsMap(g, t);
    var es := Flatten(t);
    forall i | 0 <= i < |es| ensures |es[i].value| < MAX_VALUE_LEN {
      assert es[i] in es && es[i] == Entry(es[i].key, es[i].value);
      assert Get(g, t, es[i].key) == Some(es[i].value);
    }
    assert ClipAll(es) == es;
    SaveRestoreMap(g, t, h);
    SaveRestoreReverses(g, t);
  }

  /** The map a daemon starts with, whether or not there is a file. */
  ghost function StartsWith(h: Geometry, file: Option<seq<Byte>>): map<u64, CText>
    requires file.Some? ==> Complete(file.value)
  {
    match file
    case None => map[]
    case Some(bytes) => Restored(h, bytes)
  }

  lemma EmptyFlatten(g: Geometry, t: Table)
    requires WellFormed(g, t)
    ensures Flatten(t) == [] <==> ToMap(g, t) == map[]
  {
    FlattenIsMap(g, t);
    assert ToMap(g, t) != map[] ==> |ToMap(g, t).Keys| > 0;
  }

  /** A file with entries restores to a map that is not empty. */
  lemma FileStarts(h: Geometry, file: seq<Byte>)
    requires Complete(file)
    ensures StartsWith(h, Some(file)) == map[] <==> DecodeHeader(file).count == 0
  {
    var es := EntriesIn(file);
    RestoredKeys(h, EmptyTable(h), es);
    if es != [] { assert es[0].key in Keys(es); }
  }

  /** A restart after a save finds the stored map if and only if something was stored, or there was
      no file yet, or the old one announces no entries. */
  lemma RestartAfterSave(g: Geometry, t: Table, h: Geometry, before: Option<seq<Byte>>, after: Option<seq<Byte>>)
    requires WellFormed(g, t) && AllShort(g, t) && SaveOutcome(before, after, t, true)
    requires before.Some? ==> Complete(before.value)
    ensures after.Some? ==> Complete(after.value)
    ensures StartsWith(h, after) == ToMap(g, t)
            <==> Flatten(t) != [] || before.None? || DecodeHeader(before.value).count == 0
  {
    EmptyFlatten(g, t);
    if Flatten(t) != [] {
      SavedRestores(g, t, h, after.value);
    } else if before.Some? {
      FileStarts(h, before.value);
    }
  }

  /** Insert, save, delete, save, restart: the deleted key is back. Each step is what the daemon's
      operation of that name may do, and what it does when every allocation succeeds. */
  lemma {:induction false} DeletedKeyReturns(g: Geometry, h: Geometry, k: u64, v: CText,
                                             header: Header, pad: Pad, pads: seq<Pad>)
      returns (one: Table, none: Table, file: seq<Byte>)
    requires |v| < MAX_VALUE_LEN && header.status == 0 && header.count == 1 == |pads|
    ensures InsertAnswers(g, k, v, EmptyTable(g), one, Quoted(INSERT_NAME, k, SUCCEEDED), true)
    ensures SaveOutcome(None, Some(file), one, true)
    ensures DeleteAnswers(g, k, one, none, Quoted(DELETE_NAME, k, SUCCEEDED))
    ensures SaveOutcome(Some(file), Some(file), none, true)
    ensures ToMap(g, none) == map[] && Complete(file) && StartsWith(h, Some(file)) == map[k := v]
  {
    one := Put(g, EmptyTable(g), k, v);
    PutRefines(g, EmptyTable(g), k, v);
    assert ToMap(g, one) == map[k := v];
    FlattenIsMap(g, one);
    file := EncodeFile(header, pad, RecordsOf(Flatten(one)), pads);
    FileSaves(header, pad, one, pads);
    OnePair(g, one, k, v);
    SavedRestores(g, one, h, file);
    none := Delete(g, one, k);
    DeleteRefines(g, one, k);
    assert ToMap(g, none) == map[];
    EmptyFlatten(g, none);
  }

  lemma OnePair(g: Geometry, t: Table, k: u64, v: CText)
    requires WellFormed(g, t) && ToMap(g, t) == map[k := v] && |v| < MAX_VALUE_LEN
    ensures AllShort(g, t) && Get(g, t, k) == Some(v)
  {
    forall x: u64 ensures Get(g, t, x).Some? ==> Get(g, t, x).value == v {
      assert Get(g, t, x).Some? ==> x in ToMap(g, t);
    }
    assert k in ToMap(g, t);
  }

  /** Table t' keeps every pair of t, and what it adds comes from es. */
  ghost predicate Extends(g: Geometry, t: Table, t': Table, es: seq<Entry>) {
    && |t| == |t'| == g.n
    && (forall k: u64 :: Get(g, t, k).Some? ==> Get(g, t', k) == Get(g, t, k))
    && (forall k: u64 :: Get(g, t, k).None? && Get(g, t', k).Some? ==> Entry(k, Get(g, t', k).value) in es)
  }

  lemma ExtendsMore(g: Geometry, t: Table, before: Table, after: Table, es: seq<Entry>, i: nat)
    requires i < |es| && Extends(g, t, before, es) && WellFormed(g, before)
    requires after == before || after == InsertIfAbsent(g, before, es[i])
    ensures Extends(g, t, after, es)
  {
    forall k: u64 ensures Get(g, after, k) == Get(g, before, k)
                          || (Get(g, before, k).None? && Get(g, after, k) == Some(es[i].value) && k == es[i].key) {
      PutChain(before[g.hash(es[i].key)], es[i].key, es[i].value, k);
    }
  }

  class Server {
    const kernel: Module
    var file: Option<seq<Byte>>

    constructor (kernel: Module, file: Option<seq<Byte>>)
      ensures this.kernel == kernel && this.file == file
    {
      this.kernel, this.file := kernel, file;
    }

    // ---- the ioctl of each operation, and the outcome that is reported ----

    method SendGet(msg: Message) returns (answer: CText)
      requires kernel.Ready() && msg.Terminated()
      modifies msg, msg.value
      modifies kernel.store, kernel.store.kheap, kernel.store.buckets, kernel.store.bucketLocks, kernel.store.entries
      ensures kernel.Ready() && fresh(kernel.store.entries - old(kernel.store.entries))
      ensures kernel.store.buckets == old(kernel.store.buckets)
      ensures kernel.store.bucketLocks == old(kernel.store.bucketLocks)
      ensures GetAnswers(kernel.store.g, old(msg.key), old(kernel.store.table), kernel.store.table, answer)
    {
      var ret := kernel.HandleGet(msg);
      return if msg.status == 0 then GetResponse(msg.key, CString(msg.value[..]))
             else Quoted(GET_NAME, msg.key, NO_SUCH_KEY);
    }

    method SendInsert(msg: Message) returns (answer: CText)
      requires kernel.Ready() && msg.Terminated()
      modifies msg, msg.value
      modifies kernel.store, kernel.store.kheap, kernel.store.buckets, kernel.store.bucketLocks, kernel.store.entries
      ensures kernel.Ready() && fresh(kernel.store.entries - old(kernel.store.entries))
      ensures kernel.store.buckets == old(kernel.store.buckets)
      ensures kernel.store.bucketLocks == old(kernel.store.bucketLocks)
      ensures InsertAnswers(kernel.store.g, old(msg.key), old(msg.Text()), old(kernel.store.table),
                            kernel.store.table, answer, kernel.store.kheap.reliable)
    {
      var ret := kernel.HandleInsert(msg);
      return Quoted(INSERT_NAME, msg.key,
        if msg.status == 0 then SUCCEEDED else if msg.status == 1 then KEY_TAKEN else Failed(msg.status));
    }

    method SendUpdate(msg: Message) returns (answer: CText)
      requires kernel.Ready() && msg.Terminated()
      modifies msg, msg.value
      modifies kernel.store, kernel.store.kheap, kernel.store.buckets, kernel.store.bucketLocks, kernel.store.entries
      ensures kernel.Ready() && fresh(kernel.store.entries - old(kernel.store.entries))
      ensures kernel.store.buckets == old(kernel.store.buckets)
      ensures kernel.store.bucketLocks == old(kernel.store.bucketLocks)
      ensures UpdateAnswers(kernel.store.g, old(msg.key), old(msg.Text()), old(kernel.store.table),
                            kernel.store.table, answer, kernel.store.kheap.reliable)
    {
      var ret := kernel.HandleUpdate(msg);
      return Quoted(UPDATE_NAME, msg.key, if msg.status == 0 then SUCCEEDED else Failed(msg.status));
    }

    method SendDelete(msg: Message) returns (answer: CText)
      requires kernel.Ready() && msg.Terminated()
      modifies msg, msg.value
      modifies kernel.store, kernel.store.kheap, kernel.store.buckets, kernel.store.bucketLocks, kernel.store.entries
      ensures kernel.Ready() && fresh(kernel.store.entries - old(kernel.store.entries))
      ensures kernel.store.buckets == old(kernel.store.buckets)
      ensures kernel.store.bucketLocks == old(kernel.store.bucketLocks)
      ensures DeleteAnswers(kernel.store.g, old(msg.key), old(kernel.store.table), kernel.store.table, answer)
    {
      var ret := kernel.HandleDelete(msg);
      return Quoted(DELETE_NAME, msg.key, if msg.status == 0 then SUCCEEDED else NotDeleted(msg.status));
    }

    /** do_kv_operation. */
    method DoKvOperation(op: KvOp, key: CText, value: CText) returns (answer: CText)
      requires kernel.Ready()
      modifies kernel.store, kernel.store.kheap, kernel.store.buckets, kernel.store.bucketLocks, kernel.store.entries
      ensures kernel.Ready() && fresh(kernel.store.entries - old(kernel.store.entries))
      ensures kernel.store.buckets == old(kernel.store.buckets)
      ensures kernel.store.bucketLocks == old(kernel.store.bucketLocks)
      ensures match ParseKey(key)
              case None => answer == BAD_KEY && kernel.store.table == old(kernel.store.table)
              case Some(k) => Answers(kernel.store.g, op, k, CString(MessageValue(value)), old(kernel.store.table),
                                      kernel.store.table, answer, kernel.store.kheap.reliable)
    {
      var parsed := ParseKey(key);
      if parsed.None? { return BAD_KEY; }
      var msg := NewMessage(parsed.value, value);
      answer := Send(op, msg);
    }

    /** A zeroed message with the key, and the value copied by strncpy. */
    method NewMessage(k: u64, value: CText) returns (msg: Message)
      ensures fresh(msg) && fresh(msg.value) && msg.Terminated() && msg.key == k
      ensures msg.Text() == CString(MessageValue(value))
    {
      msg := new Message(k, MessageValue(value));
      assert msg.value[..][63] == NUL;
    }

    method Send(op: KvOp, msg: Message) returns (answer: CText)
      requires kernel.Ready() && msg.Terminated()
      modifies msg, msg.value
      modifies kernel.store, kernel.store.kheap, kernel.store.buckets, kernel.store.bucketLocks, kernel.store.entries
      ensures kernel.Ready() && fresh(kernel.store.entries - old(kernel.store.entries))
      ensures kernel.store.buckets == old(kernel.store.buckets)
      ensures kernel.store.bucketLocks == old(kernel.store.bucketLocks)
      ensures Answers(kernel.store.g, op, old(msg.key), old(msg.Text()), old(kernel.store.table),
                      kernel.store.table, answer, kernel.store.kheap.reliable)
    {
      match op {
        case KvGet => answer := SendGet(msg);
        case KvInsert => answer := SendInsert(msg);
        case KvUpdate => answer := SendUpdate(msg);
        case KvDelete => answer := SendDelete(msg);
      }
    }

    method AnyPad() returns (pad: Pad)
    {
      var a: Byte, b: Byte, c: Byte, d: Byte := *, *, *, *;
      pad := [a, b, c, d];
    }

    method AnyPads(n: nat) returns (pads: seq<Pad>)
      ensures |pads| == n
    {
      pads := [];
      while |pads| < n
        invariant |pads| <= n
      {
        var pad := AnyPad();
        pads := pads + [pad];
      }
    }

    /** out.write of the header and the first h.count records, padding as it happens to be. */
    method WriteFile(h: Header, rs: seq<Record>, ghost t: Table) returns (pad: Pad, pads: seq<Pad>)
      requires |rs| == h.count && h.status == 0
      modifies `file
      ensures |pads| == |rs| && file == Some(EncodeFile(h, pad, rs, pads))
      ensures rs == RecordsOf(Flatten(t)) ==> Saves(file.value, t)
    {
      pad := AnyPad();
      pads := AnyPads(|rs|);
      file := Some(EncodeFile(h, pad, rs, pads));
      CopySaves(file, h, pad, rs, pads, t);
    }

    /** The ioctl into a calloc'ed buffer; on a mismatch the buffer stays zero. */
    method Fetch(count: u32) returns (ret: int, h: Header, rs: seq<Record>)
      requires kernel.Ready()
      modifies kernel.store.bucketLocks
      ensures kernel.Ready() && (ret >= 0 ==> |rs| == h.count && h.status == 0)
      ensures var n := |Flatten(kernel.store.table)|;
              0 < n < 0x8000_0000 && n == count ==>
                && (ret >= 0 ==> rs == RecordsOf(Flatten(kernel.store.table)))
                && (kernel.store.kheap.reliable ==> ret >= 0)
    {
      h, rs := Header(0, count, 0), [];
      var granted := kernel.store.kheap.Grants();
      if !granted { return -ENOMEM, h, rs; }
      var user := new Record[count](_ => Record(0, 0, ZeroPad([])));
      var header;
      ret, header := kernel.HandleSnapshot(count, user);
      if header.Some? { h := header.value; }
      rs := user[..h.count];
    }

    /** do_kv_snapshot_to_file with nobody else using the store. An empty store leaves the old
        file in place; otherwise, when allocations succeed, the file holds the whole table. */
    method Save()
      requires kernel.Ready()
      modifies `file, kernel.store.bucketLocks
      ensures kernel.Ready()
      ensures |Flatten(kernel.store.table)| < 0x8000_0000 ==>
                SaveOutcome(old(file), file, kernel.store.table, kernel.store.kheap.reliable)
    {
      var ret, count := kernel.HandleCount();
      if ret < 0 || count == 0 { return; }
      var h, rs;
      ret, h, rs := Fetch(count);
      if ret < 0 { return; }
      var pad, pads := WriteFile(h, rs, kernel.store.table);
    }

    /** do_kv_restore_from_file: every record is sent as an insert. The counters do not tell a
        stored entry from a refused one. What a file that is too short does not fill is junk. */
    method Restore(junk: seq<Byte>) returns (restored: nat, skipped: nat)
      requires kernel.Ready()
      requires file.Some? ==>
                 && Complete(Image(file.value, junk))
                 && Replayable(kernel.store.g, kernel.store.table, Image(file.value, junk))
      modifies kernel.store, kernel.store.kheap, kernel.store.buckets, kernel.store.bucketLocks, kernel.store.entries
      ensures kernel.Ready()
      ensures file.None? ==> kernel.store.table == old(kernel.store.table) && restored == skipped == 0
      ensures file.Some? ==>
                var image := Image(file.value, junk);
                var h, es := DecodeHeader(image), EntriesIn(image);
                && restored == (if h.status == 0 then h.count else 0) && restored + skipped == h.count
                && Extends(kernel.store.g, old(kernel.store.table), kernel.store.table, es)
                && (kernel.store.kheap.reliable ==>
                      kernel.store.table == RestoreAll(kernel.store.g, old(kernel.store.table), es))
    {
      restored, skipped := 0, 0;
      if file.None? { return; }
      var image := Image(file.value, junk);
      var header := DecodeHeader(image);
      ghost var t := kernel.store.table;
      ghost var es := EntriesIn(image);
      for i := 0 to header.count
        invariant kernel.Ready() && fresh(kernel.store.entries - old(kernel.store.entries))
        invariant kernel.store.buckets == old(kernel.store.buckets)
        invariant kernel.store.bucketLocks == old(kernel.store.bucketLocks)
        invariant restored == (if header.status == 0 then i else 0) && restored + skipped == i
        invariant Extends(kernel.store.g, t, kernel.store.table, es)
        invariant kernel.store.kheap.reliable ==> kernel.store.table == RestoreAll(kernel.store.g, t, es[..i])
      {
        assert es[..i + 1][..i] == es[..i];
        var ret := RestoreEntry(image, i, t);
        if ret < 0 || header.status != 0 {
          skipped := skipped + 1;
        } else {
          restored := restored + 1;
        }
      }
      assert es[..header.count] == es;
    }

    /** kv_message entry = snapshot->entries[i]; ioctl(fd, KV_INSERT, &entry) */
    method RestoreEntry(image: seq<Byte>, i: nat, ghost t: Table) returns (ret: int)
      requires kernel.Ready() && Complete(image) && i < DecodeHeader(image).count
      requires Extends(kernel.store.g, t, kernel.store.table, EntriesIn(image)) && Replayable(kernel.store.g, t, image)
      modifies kernel.store, kernel.store.kheap, kernel.store.buckets, kernel.store.bucketLocks, kernel.store.entries
      ensures ret == 0 && kernel.Ready() && fresh(kernel.store.entries - old(kernel.store.entries))
      ensures kernel.store.buckets == old(kernel.store.buckets)
      ensures kernel.store.bucketLocks == old(kernel.store.bucketLocks)
      ensures Extends(kernel.store.g, t, kernel.store.table, EntriesIn(image))
      ensures kernel.store.kheap.reliable ==>
                kernel.store.table == InsertIfAbsent(kernel.store.g, old(kernel.store.table), EntriesIn(image)[i])
    {
      RoomFor(image, i);
      var r := DecodeRecord(RecordBytes(image, i));
      assert EntriesIn(image)[i] == EntryOf(r) && r.value == FieldOf(image, i);
      var msg := new Message(r.key, r.value);
      ghost var before := kernel.store.table;
      ret := kernel.HandleInsert(msg);
      ExtendsMore(kernel.store.g, t, before, kernel.store.table, EntriesIn(image), i);
    }
  }
}
