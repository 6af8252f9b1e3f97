/** kernel/kvlkm.c: the ioctl handlers over the hash table, one request at a time. */
module Kernel {
  import opened KvTypes
  import opened Chains
  import opened Decimal
  import opened SnapshotFile
  import opened KvHash

  /** struct kv_message. */
  class Message {
    var status: int
    var key: u64
    const value: array<Byte>

    constructor (key: u64, field: Field)
      ensures this.key == key && status == 0 && fresh(value) && value[..] == field
    {
      this.key, status := key, 0;
      value := new Byte[MAX_VALUE_LEN](i requires 0 <= i < MAX_VALUE_LEN => field[i]);
    }

    ghost predicate Terminated()
      reads value
    {
      value.Length == MAX_VALUE_LEN && NUL in value[..]
    }

    /** The string in the value field. */
    ghost function Text(): CText
      reads value
    {
      CString(value[..])
    }

    /** snprintf(msg->value, 64, ...) of a text that fits. */
    method Print(text: CText)
      requires value.Length == MAX_VALUE_LEN && |text| < MAX_VALUE_LEN
      modifies value
      ensures Terminated() && Text() == text
    {
      HashTable.CopyOut(text, value);
      assert value[..][|text|] == NUL && value[..][..|text|] == text;
      CStringIs(value[..], |text|);
    }

    method PrintGetMissing()
      requires value.Length == MAX_VALUE_LEN
      modifies value
      ensures Terminated() && Text() == GetMissingText(key)
    {
      KeyLength(key);
      Print(GetMissingText(key));
    }

    method PrintUpdateMissing()
      requires value.Length == MAX_VALUE_LEN
      modifies value
      ensures Terminated() && Text() == UpdateMissingText(key)
    {
      KeyLength(key);
      Print(UpdateMissingText(key));
    }
  }

  // ---- texts ----

  const KEY_EXISTS: CText := "Key exists. Use update.\n"
  const INSERT_FAILED: CText := "Insert failed.\n"
  const UPDATE_FAILED: CText := "Update failed.\n"
  const DELETE_FAILED: CText := "Failed to delete key.\n"

  function GetMissingText(k: u64): CText {
    "Key '" + ToText(k) + "' does not exist"
  }

  function UpdateMissingText(k: u64): CText {
    "Cannot update non-existent key: " + ToText(k) + "\n"
  }

  /** The texts the handlers leave in the value field. */
  lemma HandlerTexts(k: u64)
    ensures KEY_EXISTS == "Key exists. Use update.\n" && INSERT_FAILED == "Insert failed.\n"
    ensures UPDATE_FAILED == "Update failed.\n" && DELETE_FAILED == "Failed to delete key.\n"
    ensures GetMissingText(k) == "Key '" + ToText(k) + "' does not exist"
    ensures UpdateMissingText(k) == "Cannot update non-existent key: " + ToText(k) + "\n"
  {
  }

  lemma {:induction false} TerminatedIsShort(f: seq<Byte>)
    requires NUL in f
    ensures |CString(f)| < |f|
  {
    if f[0] != NUL { TerminatedIsShort(f[1..]); }
  }

  /** A buffer into which a string and its terminator were copied holds that string. */
  lemma HoldsText(buf: seq<Byte>, v: CText, rest: seq<Byte>)
    requires buf == v + [NUL] + rest
    ensures NUL in buf && CString(buf) == v
  {
    assert buf[|v|] == NUL && buf[..|v|] == v;
    CStringIs(buf, |v|);
  }

  // ---- stored values fit a message ----

  ghost predicate AllShort(g: Geometry, t: Table) {
    |t| == g.n && forall k: u64 :: Get(g, t, k).Some? ==> |Get(g, t, k).value| < MAX_VALUE_LEN
  }

  lemma PutShort(g: Geometry, t: Table, k: u64, v: CText)
    requires WellFormed(g, t) && AllShort(g, t) && |v| < MAX_VALUE_LEN
    ensures WellFormed(g, Put(g, t, k, v)) && AllShort(g, Put(g, t, k, v))
  {
    PutRefines(g, t, k, v);
    forall x: u64 ensures Get(g, Put(g, t, k, v), x) == if x == k then Some(v) else Get(g, t, x) {
      PutChain(t[g.hash(k)], k, v, x);
    }
  }

  lemma DeleteShort(g: Geometry, t: Table, k: u64)
    requires WellFormed(g, t) && AllShort(g, t)
    ensures WellFormed(g, Delete(g, t, k)) && AllShort(g, Delete(g, t, k))
  {
    DeleteRefines(g, t, k);
    forall x: u64 ensures Get(g, Delete(g, t, k), x) == if x == k then None else Get(g, t, x) {
      DropChain(t[g.hash(k)], k, x);
    }
  }

  // ---- the handlers ----

  class Module {
    const store: HashTable

    constructor (store: HashTable)
      ensures this.store == store
    {
      this.store := store;
    }

    /** Loaded, and every stored value was short enough to be delivered. */
    ghost predicate Ready()
      reads store, store.kheap, store.buckets, store.bucketLocks, store.entries
    {
      store.buckets != null && store.Valid() && AllShort(store.g, store.table)
    }

    /** kv_hash_lookup into a 64-byte local: finds exactly the stored keys. */
    method Exists(key: u64) returns (ret: int)
      requires Ready()
      modifies store.bucketLocks
      ensures Ready() && (ret >= 0 <==> Get(store.g, store.table, key).Some?)
    {
      var local := new Byte[MAX_VALUE_LEN](_ => NUL);
      ret := store.Lookup(key, local, local.Length);
    }

    /** kv_hash_add(&kv_store, msg->key, msg->value): the string is read up to its terminator. */
    method AddText(msg: Message) returns (ret: int)
      requires Ready() && msg.Terminated()
      modifies store, store.kheap, store.buckets, store.bucketLocks, store.entries
      ensures Ready() && fresh(store.entries - old(store.entries))
      ensures store.buckets == old(store.buckets) && store.bucketLocks == old(store.bucketLocks)
      ensures if ret == 0 then store.table == Put(store.g, old(store.table), msg.key, msg.Text())
              else ret == -ENOMEM && store.table == old(store.table) && !store.kheap.reliable
    {
      ghost var t := store.table;
      TerminatedIsShort(msg.value[..]);
      var text := CString(msg.value[..]);
      ret := store.Add(msg.key, text);
      PutShort(store.g, t, msg.key, text);
    }

    /** The add, and what is reported of it. */
    method AddAndReport(msg: Message, failure: CText)
      requires Ready() && msg.Terminated() && |failure| < MAX_VALUE_LEN
      modifies msg, msg.value, store, store.kheap, store.buckets, store.bucketLocks, store.entries
      ensures Ready() && msg.Terminated() && msg.key == old(msg.key) && fresh(store.entries - old(store.entries))
      ensures store.buckets == old(store.buckets) && store.bucketLocks == old(store.bucketLocks)
      ensures if msg.status == 0 then
                msg.Text() == old(msg.Text()) && store.table == Put(store.g, old(store.table), msg.key, msg.Text())
              else
                && msg.status == -ENOMEM && msg.Text() == failure
                && store.table == old(store.table) && !store.kheap.reliable
    {
      msg.status := AddText(msg);
      if msg.status < 0 { msg.Print(failure); }
    }

    /** _handle_insert: a lookup, then an add. The value is read only when the key is absent. */
    method HandleInsert(msg: Message) returns (ret: int)
      requires Ready() && msg.value.Length == MAX_VALUE_LEN
      requires Get(store.g, store.table, msg.key).None? ==> msg.Terminated()
      modifies msg, msg.value, store, store.kheap, store.buckets, store.bucketLocks, store.entries
      ensures ret == 0 && Ready() && msg.Terminated() && msg.key == old(msg.key)
      ensures fresh(store.entries - old(store.entries))
      ensures store.buckets == old(store.buckets) && store.bucketLocks == old(store.bucketLocks)
      ensures var t, k, v := old(store.table), msg.key, old(msg.Text());
              if Get(store.g, t, k).Some? then
                msg.status == 1 && msg.Text() == KEY_EXISTS && store.table == t
              else
                || (msg.status == 0 && msg.Text() == v && store.table == Put(store.g, t, k, v))
                || (msg.status == -ENOMEM && msg.Text() == INSERT_FAILED && store.table == t && !store.kheap.reliable)
    {
      ret := 0;
      var found := Exists(msg.key);
      if found >= 0 {
        msg.status := 1;
        msg.Print(KEY_EXISTS);
      } else {
        AddAndReport(msg, INSERT_FAILED);
      }
    }

    /** _handle_update: a lookup, then an add. The value is read only when the key is stored. */
    method HandleUpdate(msg: Message) returns (ret: int)
      requires Ready() && msg.value.Length == MAX_VALUE_LEN
      requires Get(store.g, store.table, msg.key).Some? ==> msg.Terminated()
      modifies msg, msg.value, store, store.kheap, store.buckets, store.bucketLocks, store.entries
      ensures ret == 0 && Ready() && msg.Terminated() && msg.key == old(msg.key)
      ensures fresh(store.entries - old(store.entries))
      ensures store.buckets == old(store.buckets) && store.bucketLocks == old(store.bucketLocks)
      ensures var t, k, v := old(store.table), msg.key, old(msg.Text());
              if Get(store.g, t, k).None? then
                msg.status == 1 && msg.Text() == UpdateMissingText(k) && store.table == t
              else
                || (msg.status == 0 && msg.Text() == v && store.table == Put(store.g, t, k, v))
                || (msg.status == -ENOMEM && msg.Text() == UPDATE_FAILED && store.table == t && !store.kheap.reliable)
    {
      ret := 0;
      msg.status := 1;
      var found := Exists(msg.key);
      if found < 0 {
        msg.PrintUpdateMissing();
      } else {
        AddAndReport(msg, UPDATE_FAILED);
      }
    }

    /** _handle_get. */
    method HandleGet(msg: Message) returns (ret: int)
      requires Ready() && msg.value.Length == MAX_VALUE_LEN
      modifies msg, msg.value, store.bucketLocks
      ensures ret == 0 && Ready() && msg.Terminated() && msg.key == old(msg.key)
      ensures var found := Get(store.g, store.table, msg.key);
              if found.Some? then msg.status == 0 && msg.Text() == found.value
              else msg.status == 1 && msg.Text() == GetMissingText(msg.key)
    {
      forall i | 0 <= i < MAX_VALUE_LEN { msg.value[i] := NUL; }
      msg.status := 1;
      ghost var zeros := msg.value[..];
      var len := store.Lookup(msg.key, msg.value, MAX_VALUE_LEN);
      if len < 0 {
        msg.PrintGetMissing();
      } else {
        HoldsText(msg.value[..], Get(store.g, store.table, msg.key).value, zeros[len + 1..]);
        msg.status := 0;
      }
      return 0;
    }

    /** _handle_delete. */
    method HandleDelete(msg: Message) returns (ret: int)
      requires Ready() && msg.value.Length == MAX_VALUE_LEN
      modifies msg, msg.value, store, store.kheap, store.buckets, store.bucketLocks, store.entries
      ensures ret == 0 && Ready() && msg.key == old(msg.key)
      ensures fresh(store.entries - old(store.entries))
      ensures store.buckets == old(store.buckets) && store.bucketLocks == old(store.bucketLocks)
      ensures store.table == Delete(store.g, old(store.table), msg.key)
      ensures msg.status == if Get(store.g, old(store.table), msg.key).Some? then 0 else 1
      ensures if msg.status == 0 then msg.value[..] == old(msg.value[..])
              else msg.Terminated() && msg.Text() == DELETE_FAILED
    {
      msg.status := 1;
      DeleteShort(store.g, store.table, msg.key);
      var removed := store.Remove(msg.key);
      if removed < 0 {
        msg.Print(DELETE_FAILED);
      } else {
        msg.status := 0;
      }
      return 0;
    }

    /** _handle_kv_count: the count as an unsigned int, or a negative return. */
    method HandleCount() returns (ret: int, count: u32)
      requires Ready()
      modifies store.bucketLocks
      ensures Ready()
      ensures var n := WrapInt(|Flatten(store.table)|); if n < 0 then ret == n else ret == 0 && count == n
    {
      ret := store.Count();
      if ret < 0 { return ret, 0; }
      return 0, ret;
    }

    /** _handle_kv_snapshot on a user buffer with room for capacity records. A count that
        does not match is returned as it is, and the buffer is not touched. */
    method HandleSnapshot(capacity: u32, user: array<Record>) returns (ret: int, header: Option<Header>)
      requires Ready() && user.Length == capacity
      modifies store.bucketLocks, user
      ensures Ready()
      ensures header.None? ==> user[..] == old(user[..])
      ensures header.Some? ==>
                && ret == 0 && header.value == Header(0, capacity, header.value.count)
                && header.value.count == Min(capacity, |Flatten(store.table)|)
                && user[..] == RecordsOf(Flatten(store.table)[..header.value.count])
                               + old(user[..])[header.value.count..]
      ensures |Flatten(store.table)| < 0x8000_0000 ==>
                var n := |Flatten(store.table)|;
                && (n != capacity ==> ret == n && header.None?)
                && (n == capacity > 0 && store.kheap.reliable ==> header.Some?)
                && (header.None? && n == capacity ==> ret < 0)
    {
      header := None;
      var actual := store.Count();
      if actual % TWO_32 != capacity { return actual, None; }
      var granted := store.kheap.Grants();
      if !granted { return -ENOMEM, None; }
      var buffer := new Record[capacity](_ => Record(0, 0, ZeroPad([])));
      var count;
      ret, count := store.Snapshot(buffer, capacity);
      if ret < 0 { return ret, None; }
      CopyRecords(buffer, count, user);
      header := Some(Header(0, capacity, count));
    }

    /** copy_to_user of the first n records. */
    static method CopyRecords(from: array<Record>, n: nat, to: array<Record>)
      requires from != to && n <= from.Length == to.Length
      modifies to
      ensures to[..] == from[..n] + old(to[..])[n..]
    {
      for i := 0 to n
        invariant to[..] == from[..i] + old(to[..])[i..]
      {
        to[i] := from[i];
      }
    }
  }
}
