/** The bytes of the snapshot: a 16-byte header and 80-byte records in the little-endian
    layout of a 64-bit build. Padding bytes are arbitrary: nothing ever sets them. */
module SnapshotFile {
  import opened KvTypes
  import opened Chains
  import opened Requests
  import opened Restore

  const HEADER_SIZE: nat := 16
  const RECORD_SIZE: nat := 80

  type Pad = p: seq<Byte> | |p| == 4 witness ['\0', '\0', '\0', '\0']
  type Field = v: seq<Byte> | |v| == MAX_VALUE_LEN witness seq(MAX_VALUE_LEN, i => NUL)

  // struct kv_message
  datatype Record = Record(status: u32, key: u64, value: Field)

  // struct kv_snapshot_message without its entries
  datatype Header = Header(status: u32, capacity: u32, count: u32)

  // ---- little-endian numbers ----

  function Pow256(w: nat): (p: nat)
    ensures p > 0
  {
    if w == 0 then 1 else 256 * Pow256(w - 1)
  }

  function EncodeLE(n: nat, w: nat): (bs: seq<Byte>)
    ensures |bs| == w
  {
    if w == 0 then [] else [(n % 256) as char] + EncodeLE(n / 256, w - 1)
  }

  function DecodeLE(bs: seq<Byte>): nat {
    if bs == [] then 0 else bs[0] as int + 256 * DecodeLE(bs[1..])
  }

  lemma {:induction false} NumberCodec(n: nat, w: nat)
    requires n < Pow256(w)
    ensures DecodeLE(EncodeLE(n, w)) == n
  {
    if w > 0 {
      NumberCodec(n / 256, w - 1);
      assert EncodeLE(n, w)[1..] == EncodeLE(n / 256, w - 1);
    }
  }

  lemma {:induction false} DecodeBound(bs: seq<Byte>)
    ensures DecodeLE(bs) < Pow256(|bs|)
  {
    if bs != [] { DecodeBound(bs[1..]); }
  }

  lemma Widths()
    ensures Pow256(4) == TWO_32 && Pow256(8) == TWO_64
  {
    assert Pow256(2) == 65536;
    assert Pow256(4) == 256 * (256 * Pow256(2));
    assert Pow256(6) == 256 * (256 * Pow256(4));
    assert Pow256(8) == 256 * (256 * Pow256(6));
  }

  lemma DivDiv(n: nat, p: nat)
    requires p > 0
    ensures n / 256 / p == n / (256 * p)
  {
    var q, r, s := n / 256 / p, n / 256 % p, n % 256;
    assert n == 256 * (q * p + r) + s == q * (256 * p) + (256 * r + s);
    assert 0 <= 256 * r + s < 256 * p;
    QuotientIs(n, 256 * p, q, 256 * r + s);
  }

  lemma QuotientIs(n: nat, d: nat, q: nat, r: nat)
    requires d > 0 && n == q * d + r && r < d
    ensures n / d == q
  {
    var e := n / d - q;
    assert n == (n / d) * d + n % d;
    assert e * d == (n / d) * d - q * d == r - n % d;
    assert e >= 1 ==> e * d >= d;
    assert e <= -1 ==> e * d <= (-1) * d;
  }

  /** The number n lies in width bytes from position from on, the low byte first. */
  predicate LittleEndian(bs: seq<Byte>, from: nat, width: nat, n: nat) {
    from + width <= |bs| && forall j | 0 <= j < width :: bs[from + j] as int == n / Pow256(j) % 256
  }

  lemma {:induction false} DecodedByte(bs: seq<Byte>, j: nat)
    requires j < |bs|
    ensures bs[j] as int == DecodeLE(bs) / Pow256(j) % 256
  {
    var n, rest := DecodeLE(bs), DecodeLE(bs[1..]);
    assert n == 256 * rest + bs[0] as int;
    if j > 0 {
      DecodedByte(bs[1..], j - 1);
      DivDiv(n, Pow256(j - 1));
      assert n / 256 == rest;
    }
  }

  lemma DecodedAt(bs: seq<Byte>, from: nat, to: nat)
    requires from <= to <= |bs|
    ensures LittleEndian(bs, from, to - from, DecodeLE(bs[from..to]))
  {
    forall j | 0 <= j < to - from ensures bs[from + j] as int == DecodeLE(bs[from..to]) / Pow256(j) % 256 {
      DecodedByte(bs[from..to], j);
    }
  }

  function ReadU32(bs: seq<Byte>): u32
    requires |bs| == 4
  {
    Widths();
    DecodeBound(bs);
    DecodeLE(bs)
  }

  function ReadU64(bs: seq<Byte>): u64
    requires |bs| == 8
  {
    Widths();
    DecodeBound(bs);
    DecodeLE(bs)
  }

  // ---- value fields ----

  /** A C string at the start of a field, the rest zero. */
  function ZeroPad(v: CText): (f: Field)
    requires |v| < MAX_VALUE_LEN
  {
    v + seq(MAX_VALUE_LEN - |v|, i => NUL)
  }

  /** The C string at the start of a buffer: up to the first NUL, or all of it. */
  function CString(f: seq<Byte>): (v: CText)
    ensures |v| <= |f| && v == f[..|v|]
    ensures |v| < |f| ==> f[|v|] == NUL
  {
    if f == [] || f[0] == NUL then [] else [f[0]] + CString(f[1..])
  }

  lemma CStringIs(f: seq<Byte>, n: nat)
    requires n < |f| && f[n] == NUL && NUL !in f[..n]
    ensures CString(f) == f[..n]
  {
    var v := CString(f);
    assert forall j | 0 <= j < n :: f[j] == f[..n][j] && f[j] != NUL;
    assert forall j | 0 <= j < |v| :: v[j] == f[j];
  }

  /** Reading a padded field gives the string back. */
  lemma FieldCodec(v: CText)
    requires |v| < MAX_VALUE_LEN
    ensures CString(ZeroPad(v)) == v
  {
    assert ZeroPad(v)[..|v|] == v;
    CStringIs(ZeroPad(v), |v|);
  }

  // ---- records and files ----

  function EncodeRecord(r: Record, pad: Pad): (bs: seq<Byte>)
    ensures |bs| == RECORD_SIZE
  {
    EncodeLE(r.status, 4) + pad + EncodeLE(r.key, 8) + r.value
  }

  function DecodeRecord(bs: seq<Byte>): Record
    requires |bs| == RECORD_SIZE
  {
    Record(ReadU32(bs[..4]), ReadU64(bs[8..16]), bs[16..80])
  }

  function EncodeHeader(h: Header, pad: Pad): (bs: seq<Byte>)
    ensures |bs| == HEADER_SIZE
  {
    EncodeLE(h.status, 4) + EncodeLE(h.capacity, 4) + EncodeLE(h.count, 4) + pad
  }

  function DecodeHeader(bs: seq<Byte>): Header
    requires |bs| >= HEADER_SIZE
  {
    Header(ReadU32(bs[..4]), ReadU32(bs[4..8]), ReadU32(bs[8..12]))
  }

  function EncodeRecords(rs: seq<Record>, pads: seq<Pad>): (bs: seq<Byte>)
    requires |pads| == |rs|
    ensures |bs| == RECORD_SIZE * |rs|
  {
    if rs == [] then []
    else EncodeRecords(rs[..|rs| - 1], pads[..|rs| - 1]) + EncodeRecord(rs[|rs| - 1], pads[|rs| - 1])
  }

  function EncodeFile(h: Header, pad: Pad, rs: seq<Record>, pads: seq<Pad>): (bs: seq<Byte>)
    requires |pads| == |rs|
    ensures |bs| == HEADER_SIZE + RECORD_SIZE * |rs|
  {
    EncodeHeader(h, pad) + EncodeRecords(rs, pads)
  }

  /** Record i of a file, by the address arithmetic of entries[i]. */
  function RecordBytes(file: seq<Byte>, i: nat): (bs: seq<Byte>)
    requires HEADER_SIZE + RECORD_SIZE * (i + 1) <= |file|
    ensures |bs| == RECORD_SIZE
  {
    file[HEADER_SIZE + RECORD_SIZE * i..HEADER_SIZE + RECORD_SIZE * (i + 1)]
  }

  lemma RecordCodec(r: Record, pad: Pad)
    ensures DecodeRecord(EncodeRecord(r, pad)) == r
  {
    Widths();
    var bs := EncodeRecord(r, pad);
    NumberCodec(r.status, 4);
    NumberCodec(r.key, 8);
    assert bs[..4] == EncodeLE(r.status, 4);
    assert bs[8..16] == EncodeLE(r.key, 8);
    assert bs[16..80] == r.value;
  }

  lemma HeaderCodec(h: Header, pad: Pad, rest: seq<Byte>)
    ensures DecodeHeader(EncodeHeader(h, pad) + rest) == h
  {
    Widths();
    var bs := EncodeHeader(h, pad) + rest;
    NumberCodec(h.status, 4);
    NumberCodec(h.capacity, 4);
    NumberCodec(h.count, 4);
    assert bs[..4] == EncodeLE(h.status, 4);
    assert bs[4..8] == EncodeLE(h.capacity, 4);
    assert bs[8..12] == EncodeLE(h.count, 4);
  }

  lemma {:induction false} RecordsAt(rs: seq<Record>, pads: seq<Pad>, i: nat)
    requires |pads| == |rs| && i < |rs|
    ensures EncodeRecords(rs, pads)[RECORD_SIZE * i..RECORD_SIZE * (i + 1)] == EncodeRecord(rs[i], pads[i])
  {
    var n := |rs| - 1;
    var front := EncodeRecords(rs[..n], pads[..n]);
    if i < n {
      RecordsAt(rs[..n], pads[..n], i);
      assert EncodeRecords(rs, pads)[RECORD_SIZE * i..RECORD_SIZE * (i + 1)]
          == front[RECORD_SIZE * i..RECORD_SIZE * (i + 1)];
    }
  }

  /** The fields of a header where struct kv_snapshot_message has them. */
  predicate HeaderLies(file: seq<Byte>, h: Header) {
    && |file| >= 16
    && LittleEndian(file, 0, 4, h.status) && LittleEndian(file, 4, 4, h.capacity) && LittleEndian(file, 8, 4, h.count)
  }

  /** The fields of entries[i] where struct kv_message has them: four bytes of padding follow the status. */
  predicate RecordLies(file: seq<Byte>, i: nat, r: Record) {
    && |file| >= 16 + 80 * (i + 1)
    && LittleEndian(file, 16 + 80 * i, 4, r.status) && LittleEndian(file, 16 + 80 * i + 8, 8, r.key)
    && file[16 + 80 * i + 16..16 + 80 * (i + 1)] == r.value
  }

  /** What is read is what lies there, in any file. */
  lemma DecodedHeader(file: seq<Byte>)
    requires |file| >= HEADER_SIZE
    ensures HeaderLies(file, DecodeHeader(file))
  {
    assert file[..4] == file[0..4];
    DecodedAt(file, 0, 4);
    DecodedAt(file, 4, 8);
    DecodedAt(file, 8, 12);
  }

  lemma {:induction false} Within(file: seq<Byte>, at: nat, bs: seq<Byte>, i: nat, j: nat)
    requires at + |bs| <= |file| && bs == file[at..at + |bs|] && i <= j <= |bs|
    ensures bs[i..j] == file[at + i..at + j]
  {
    assert forall x | i <= x < j :: bs[x] == file[at + x];
    assert |bs[i..j]| == |file[at + i..at + j]|;
  }

  lemma {:induction false} DecodedRecord(file: seq<Byte>, i: nat)
    requires HEADER_SIZE + RECORD_SIZE * (i + 1) <= |file|
    ensures RecordLies(file, i, DecodeRecord(RecordBytes(file, i)))
  {
    var at, bs := 16 + 80 * i, RecordBytes(file, i);
    assert at + |bs| == 16 + 80 * (i + 1);
    Within(file, at, bs, 0, 4);
    Within(file, at, bs, 8, 16);
    Within(file, at, bs, 16, 80);
    assert bs[..4] == bs[0..4];
    DecodedAt(file, at, at + 4);
    DecodedAt(file, at + 8, at + 16);
  }

  /** For every number of records and whatever the padding: the file length is 16 + 80 n,
      every field lies where its C struct has it, and decoding gives header and records back. */
  lemma {:induction false} FileCodec(h: Header, pad: Pad, rs: seq<Record>, pads: seq<Pad>)
    requires |pads| == |rs|
    ensures var file := EncodeFile(h, pad, rs, pads);
            && |file| == 16 + 80 * |rs|
            && DecodeHeader(file) == h && HeaderLies(file, h)
            && (forall i | 0 <= i < |rs| :: RecordLies(file, i, rs[i]))
            && forall i | 0 <= i < |rs| :: RecordBytes(file, i) == EncodeRecord(rs[i], pads[i])
                                           && DecodeRecord(RecordBytes(file, i)) == rs[i]
  {
    var body := EncodeRecords(rs, pads);
    var file := EncodeFile(h, pad, rs, pads);
    HeaderCodec(h, pad, body);
    DecodedHeader(file);
    forall i | 0 <= i < |rs|
      ensures RecordBytes(file, i) == EncodeRecord(rs[i], pads[i]) && RecordLies(file, i, rs[i])
      ensures DecodeRecord(RecordBytes(file, i)) == rs[i]
    {
      RecordsAt(rs, pads, i);
      assert RecordBytes(file, i) == body[RECORD_SIZE * i..RECORD_SIZE * (i + 1)];
      RecordCodec(rs[i], pads[i]);
      DecodedRecord(file, i);
    }
  }

  // ---- from a table to a file and back ----

  /** What kv_hash_snapshot writes for an entry: status 0, and the value cut to its field. */
  function RecordOf(e: Entry): Record {
    Record(0, e.key, ZeroPad(Clip(e.value)))
  }

  /** Its field holds the first 63 bytes of the value and zeros behind them. */
  lemma RecordHolds(e: Entry)
    ensures var r, v := RecordOf(e), if |e.value| < 64 then e.value else e.value[..63];
            && r.status == 0 && r.key == e.key && CString(r.value) == v
            && forall j | |v| <= j < 64 :: r.value[j] == NUL
  {
    FieldCodec(Clip(e.value));
  }

  /** What a restored record asks to insert. */
  function EntryOf(r: Record): Entry {
    Entry(r.key, CString(r.value))
  }

  function RecordsOf(es: seq<Entry>): (rs: seq<Record>)
    ensures |rs| == |es|
    ensures forall i | 0 <= i < |es| :: rs[i] == RecordOf(es[i])
  {
    seq(|es|, i requires 0 <= i < |es| => RecordOf(es[i]))
  }

  /** A file whose header announces no more records than it holds. */
  predicate Complete(file: seq<Byte>) {
    |file| >= HEADER_SIZE && |file| >= HEADER_SIZE + RECORD_SIZE * DecodeHeader(file).count
  }

  lemma RoomFor(file: seq<Byte>, i: nat)
    requires Complete(file) && i < DecodeHeader(file).count
    ensures HEADER_SIZE + RECORD_SIZE * (i + 1) <= |file|
  {
  }

  /** The entries a restore reads. */
  function EntriesIn(file: seq<Byte>): (es: seq<Entry>)
    requires Complete(file)
    ensures |es| == DecodeHeader(file).count
  {
    seq(DecodeHeader(file).count, i requires 0 <= i < DecodeHeader(file).count =>
      (RoomFor(file, i); EntryOf(DecodeRecord(RecordBytes(file, i)))))
  }

  /** The map a daemon starts with when it restores file into an empty store. */
  ghost function Restored(h: Geometry, file: seq<Byte>): map<u64, CText>
    requires Complete(file)
  {
    ToMap(h, RestoreAll(h, EmptyTable(h), EntriesIn(file)))
  }

  /** What a restore has in memory: a zeroed header into which the file is read, and an allocated
      block into which the rest is read; where the file is too short, the block holds junk. */
  function Image(file: seq<Byte>, junk: seq<Byte>): (image: seq<Byte>)
    ensures |image| >= HEADER_SIZE && file <= image
  {
    (if |file| < HEADER_SIZE then file + seq(HEADER_SIZE - |file|, i => NUL) else file) + junk
  }

  /** A header that is too short is filled up with zeros, and junk comes only after it. */
  lemma ImageBeyond(file: seq<Byte>, junk: seq<Byte>)
    ensures forall i | |file| <= i < HEADER_SIZE :: Image(file, junk)[i] == NUL
    ensures Image(file, junk)[if |file| < HEADER_SIZE then HEADER_SIZE else |file|..] == junk
  {
  }

  /** Of a complete file the junk does not show. */
  lemma ImageOfComplete(file: seq<Byte>, junk: seq<Byte>)
    requires Complete(file)
    ensures Complete(Image(file, junk)) && DecodeHeader(Image(file, junk)) == DecodeHeader(file)
    ensures EntriesIn(Image(file, junk)) == EntriesIn(file)
    ensures forall i | 0 <= i < DecodeHeader(file).count ::
              RecordBytes(Image(file, junk), i) == RecordBytes(file, i)
  {
    var image := Image(file, junk);
    assert image[..4] == file[..4] && image[4..8] == file[4..8] && image[8..12] == file[8..12];
    forall i | 0 <= i < DecodeHeader(file).count
      ensures RecordBytes(image, i) == RecordBytes(file, i) && EntriesIn(image)[i] == EntriesIn(file)[i]
    {
      RoomFor(file, i);
      assert RecordBytes(image, i) == RecordBytes(file, i);
    }
  }

  ghost predicate ValuesFit(es: seq<Entry>) {
    forall i | 0 <= i < |es| :: |es[i].value| < MAX_VALUE_LEN
  }

  /** The file a save writes reads back as the same entries in the same order, each value cut
      to its field. */
  lemma SavedEntriesReadBack(h: Header, pad: Pad, es: seq<Entry>, pads: seq<Pad>)
    requires |pads| == |es| == h.count
    ensures Complete(EncodeFile(h, pad, RecordsOf(es), pads))
    ensures EntriesIn(EncodeFile(h, pad, RecordsOf(es), pads)) == ClipAll(es)
    ensures ValuesFit(es) ==> ClipAll(es) == es
  {
    var file := EncodeFile(h, pad, RecordsOf(es), pads);
    FileCodec(h, pad, RecordsOf(es), pads);
    forall i | 0 <= i < |es| ensures EntriesIn(file)[i] == ClipAll(es)[i] {
      FieldCodec(Clip(es[i].value));
    }
  }

  /** Byte-level round trip: a table whose values fit, saved and restored into an empty table
      of any hash and bucket count, gives the same map; with the same hash and bucket
      count it gives the table with every chain reversed. */
  lemma {:induction false} SaveRestoreRoundTrip(g: Geometry, t: Table, h: Geometry,
                                                header: Header, pad: Pad, pads: seq<Pad>)
    requires WellFormed(g, t) && ValuesFit(Flatten(t))
    requires header.count == |Flatten(t)| == |pads|
    ensures var file := EncodeFile(header, pad, RecordsOf(Flatten(t)), pads);
            && |file| == 16 + 80 * |ToMap(g, t)|
            && Complete(file)
            && Restored(h, file) == ToMap(g, t)
            && RestoreAll(g, EmptyTable(g), EntriesIn(file)) == ReverseChains(t)
  {
    SavedEntriesReadBack(header, pad, Flatten(t), pads);
    FlattenIsMap(g, t);
    SaveRestoreMap(g, t, h);
    SaveRestoreReverses(g, t);
  }

  lemma CutValuesDiffer(g: Geometry, t: Table, h: Geometry)
    requires WellFormed(g, t) && !ValuesFit(Flatten(t))
    ensures ToMap(h, RestoreAll(h, EmptyTable(h), ClipAll(Flatten(t)))) != ToMap(g, t)
  {
    var es := Flatten(t);
    var i :| 0 <= i < |es| && |es[i].value| >= MAX_VALUE_LEN;
    FlattenIsMap(g, t);
    assert es[i] in es && es[i] == Entry(es[i].key, es[i].value);
    RestoredShort(h, ClipAll(es), es[i].key);
  }

  /** The map survives a save and a restore exactly when every stored value fits its field. */
  lemma {:induction false} RoundTripExactly(g: Geometry, t: Table, h: Geometry,
                                            header: Header, pad: Pad, pads: seq<Pad>)
    requires WellFormed(g, t) && header.count == |Flatten(t)| == |pads|
    ensures var file := EncodeFile(header, pad, RecordsOf(Flatten(t)), pads);
            && Complete(file)
            && (Restored(h, file) == ToMap(g, t) <==> ValuesFit(Flatten(t)))
  {
    SavedEntriesReadBack(header, pad, Flatten(t), pads);
    if ValuesFit(Flatten(t)) {
      SaveRestoreMap(g, t, h);
    } else {
      CutValuesDiffer(g, t, h);
    }
  }

  /** A restore into an empty table stores only what the file holds. */
  lemma RestoredShort(h: Geometry, es: seq<Entry>, k: u64)
    requires ValuesFit(es)
    ensures var m := ToMap(h, RestoreAll(h, EmptyTable(h), es)); k in m ==> |m[k]| < MAX_VALUE_LEN
  {
    RestoreMerges(h, EmptyTable(h), es);
    assert Get(h, EmptyTable(h), k).None?;
  }
}
