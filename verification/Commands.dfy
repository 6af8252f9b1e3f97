/** The daemon's command language: how a line is split, what it asks for, and that the
    client's printer is undone; and what a connection may do before it has authenticated. */
module Commands {
  import opened KvTypes
  import opened Decimal
  import opened SnapshotFile

  datatype KvOp = KvInsert | KvDelete | KvGet | KvUpdate

  datatype Command =
    | Empty
    | AuthNoUser
    | AuthNoPassword
    | Auth(user: CText, password: CText)
    | TakeSnapshot
    | NoKey
    | NoValue(op: KvOp)
    | Unknown(name: CText)
    | Kv(op: KvOp, key: CText, value: CText)

  // ---- istringstream ----

  function TokenEnd(s: seq<char>, i: nat): (r: nat)
    requires i <= |s|
    ensures i <= r <= |s|
    ensures forall j | i <= j < r :: !IsSpace(s[j])
    ensures r < |s| ==> IsSpace(s[r])
    decreases |s| - i
  {
    if i < |s| && !IsSpace(s[i]) then TokenEnd(s, i + 1) else i
  }

  /** stream >> token: the token (empty when only white space is left) and the position after it. */
  function NextToken(s: CText, i: nat): (r: (CText, nat))
    requires i <= |s|
    ensures i <= r.1 <= |s|
  {
    var from := SpacesEnd(s, i);
    var to := TokenEnd(s, from);
    (s[from..to], to)
  }

  function LineEnd(s: seq<char>, i: nat): (r: nat)
    requires i <= |s|
    ensures i <= r <= |s|
    ensures forall j | i <= j < r :: s[j] != '\n'
    ensures r < |s| ==> s[r] == '\n'
    decreases |s| - i
  {
    if i < |s| && s[i] != '\n' then LineEnd(s, i + 1) else i
  }

  /** std::getline, then one leading blank removed. */
  function RestOfLine(s: CText, i: nat): CText
    requires i <= |s|
  {
    var line := s[i..LineEnd(s, i)];
    if |line| > 0 && line[0] == ' ' then line[1..] else line
  }

  function OpNamed(name: seq<char>): Option<KvOp> {
    if name == "KV_INSERT" then Some(KvInsert)
    else if name == "KV_DELETE" then Some(KvDelete)
    else if name == "KV_GET" then Some(KvGet)
    else if name == "KV_UPDATE" then Some(KvUpdate)
    else None
  }

  predicate NeedsValue(op: KvOp) {
    op.KvInsert? || op.KvUpdate?
  }

  /** parse_and_handle_command, up to what the line asks for. */
  function ParseCommand(s: CText): Command {
    var (name, i) := NextToken(s, 0);
    if name == "" then Empty
    else if name == "AUTH" then
      var (user, j) := NextToken(s, i);
      var (password, k) := NextToken(s, j);
      if user == "" then AuthNoUser else if password == "" then AuthNoPassword else Auth(user, password)
    else if name == "KV_SNAPSHOT" then TakeSnapshot
    else
      var (key, j) := NextToken(s, i);
      if key == "" then NoKey
      else
        var value := RestOfLine(s, j);
        match OpNamed(name)
        case None => Unknown(name)
        case Some(op) => if NeedsValue(op) && value == "" then NoValue(op) else Kv(op, key, value)
  }

  // ---- the message do_kv_operation sends ----

  /** strncpy(msg.value, value, 63) into a zeroed message, with the last byte set to NUL. */
  function MessageValue(value: CText): Field {
    ZeroPad(if |value| < MAX_VALUE_LEN then value else value[..MAX_VALUE_LEN - 1])
  }

  /** What reaches the kernel: operation, key and value field; None for an unreadable key. */
  function MessageOf(c: Command): Option<(KvOp, u64, Field)> {
    match c
    case Kv(op, key, value) =>
      (match ParseKey(key)
       case Some(k) => Some((op, k, MessageValue(value)))
       case None => None)
    case _ => None
  }

  // ---- the client's printer, and the round trip ----

  function OpName(op: KvOp): CText {
    match op
    case KvInsert => "KV_INSERT"
    case KvDelete => "KV_DELETE"
    case KvGet => "KV_GET"
    case KvUpdate => "KV_UPDATE"
  }

  function PrintCommand(op: KvOp, key: u64, value: CText): CText {
    if NeedsValue(op) then OpName(op) + " " + ToText(key) + " " + value
    else OpName(op) + " " + ToText(key)
  }

  lemma TokenEndOf(s: seq<char>, i: nat, r: nat)
    requires i <= r <= |s| && (forall j | i <= j < r :: !IsSpace(s[j])) && (r < |s| ==> IsSpace(s[r]))
    ensures TokenEnd(s, i) == r
  {
  }

  predicate Word(w: seq<char>) {
    |w| > 0 && forall j | 0 <= j < |w| :: !IsSpace(w[j])
  }

  /** A word after some blanks, up to the end or a blank. */
  lemma TokenIs(s: CText, i: nat, from: nat, w: CText)
    requires i <= from && from + |w| <= |s| && Word(w) && s[from..from + |w|] == w
    requires forall j | i <= j < from :: IsSpace(s[j])
    requires from + |w| < |s| ==> IsSpace(s[from + |w|])
    ensures NextToken(s, i) == (w, from + |w|)
  {
    assert forall j | from <= j < from + |w| :: s[j] == w[j - from];
    TokenEndOf(s, from, from + |w|);
  }

  lemma OpNames(op: KvOp)
    ensures Word(OpName(op)) && OpNamed(OpName(op)) == Some(op)
    ensures OpName(op) != "AUTH" && OpName(op) != "KV_SNAPSHOT"
  {
  }

  /** The first two words of a line are its operation and its key. */
  lemma ParseFront(name: CText, k: CText, front: CText, s: CText)
    requires front == name + " " + k && Word(name) && Word(k)
    requires |front| <= |s| && s[..|front|] == front && (|front| < |s| ==> s[|front|] == ' ')
    ensures NextToken(s, 0) == (name, |name|)
    ensures NextToken(s, |name|) == (k, |front|)
  {
    var i := |name|;
    assert forall j | 0 <= j < |front| :: s[j] == front[j];
    assert s[0..i] == name && s[i] == ' ' && s[i + 1..i + 1 + |k|] == k;
    TokenIs(s, 0, 0, name);
    TokenIs(s, i, i + 1, k);
  }

  lemma RestPrinted(front: CText, value: CText, s: CText)
    requires '\n' !in value && (s == front + " " + value || (s == front && value == ""))
    ensures RestOfLine(s, |front|) == value
  {
    var j := |front|;
    if s == front {
      assert s[j..|s|] == "" && LineEnd(s, j) == |s|;
    } else {
      assert s[j..] == " " + value && s[j..|s|] == s[j..];
      assert forall n | j <= n < |s| :: s[n] == (" " + value)[n - j];
    }
  }

  /** Every printed command reads back as the same operation, the same key text and the whole
      value: inner, leading and trailing blanks of the value are kept. */
  lemma {:induction false} ParsePrinted(op: KvOp, key: u64, value: CText)
    requires if NeedsValue(op) then value != "" && '\n' !in value else value == ""
    ensures ParseCommand(PrintCommand(op, key, value)) == Kv(op, ToText(key), value)
  {
    var s := PrintCommand(op, key, value);
    var front := OpName(op) + " " + ToText(key);
    assert s[..|front|] == front && (|front| < |s| ==> s[|front|] == ' ');
    OpNames(op);
    ParseFront(OpName(op), ToText(key), front, s);
    RestPrinted(front, value, s);
  }

  // ---- what every line asks for, word by word ----

  /** From position i on there is only white space. */
  predicate BlankFrom(s: seq<char>, i: nat) {
    i <= |s| && forall j | i <= j < |s| :: IsSpace(s[j])
  }

  /** The first word at or after position i is s[from..to]. */
  predicate WordAt(s: seq<char>, i: nat, from: nat, to: nat) {
    && i <= from < to <= |s|
    && (forall j | i <= j < from :: IsSpace(s[j])) && (forall j | from <= j < to :: !IsSpace(s[j]))
    && (to < |s| ==> IsSpace(s[to]))
  }

  lemma {:induction false} ReadsWord(s: CText, i: nat, from: nat, to: nat)
    requires WordAt(s, i, from, to)
    ensures NextToken(s, i) == (s[from..to], to)
  {
    TokenEndOf(s, from, to);
  }

  lemma {:induction false} ReadsNothing(s: CText, i: nat)
    requires BlankFrom(s, i)
    ensures NextToken(s, i).0 == ""
  {
    assert SpacesEnd(s, i) == |s|;
  }

  lemma {:induction false} BlankLine(s: CText)
    requires BlankFrom(s, 0)
    ensures ParseCommand(s) == Empty
  {
    ReadsNothing(s, 0);
  }

  /** AUTH without a user, without a password, and with both; what comes after them is not read. */
  lemma {:induction false} AuthWithoutUser(s: CText, a: nat, b: nat)
    requires WordAt(s, 0, a, b) && s[a..b] == "AUTH" && BlankFrom(s, b)
    ensures ParseCommand(s) == AuthNoUser
  {
    ReadsWord(s, 0, a, b);
    ReadsNothing(s, b);
  }

  lemma {:induction false} AuthWithoutPassword(s: CText, a: nat, b: nat, c: nat, d: nat)
    requires WordAt(s, 0, a, b) && s[a..b] == "AUTH" && WordAt(s, b, c, d) && BlankFrom(s, d)
    ensures ParseCommand(s) == AuthNoPassword
  {
    ReadsWord(s, 0, a, b);
    ReadsWord(s, b, c, d);
    ReadsNothing(s, d);
  }

  lemma {:induction false} AuthLine(s: CText, a: nat, b: nat, c: nat, d: nat, e: nat, f: nat)
    requires WordAt(s, 0, a, b) && s[a..b] == "AUTH" && WordAt(s, b, c, d) && WordAt(s, d, e, f)
    ensures ParseCommand(s) == Auth(s[c..d], s[e..f])
  {
    ReadsWord(s, 0, a, b);
    ReadsWord(s, b, c, d);
    ReadsWord(s, d, e, f);
  }

  lemma {:induction false} SnapshotLine(s: CText, a: nat, b: nat)
    requires WordAt(s, 0, a, b) && s[a..b] == "KV_SNAPSHOT"
    ensures ParseCommand(s) == TakeSnapshot
  {
    ReadsWord(s, 0, a, b);
  }

  /** Any other first word, listed or not, needs a key. */
  lemma {:induction false} NoKeyLine(s: CText, a: nat, b: nat)
    requires WordAt(s, 0, a, b) && s[a..b] != "AUTH" && s[a..b] != "KV_SNAPSHOT" && BlankFrom(s, b)
    ensures ParseCommand(s) == NoKey
  {
    ReadsWord(s, 0, a, b);
    ReadsNothing(s, b);
  }

  /** The value is what follows position i, up to position n where the line ends, without one
      leading blank. */
  predicate ValueAt(s: seq<char>, i: nat, n: nat, value: seq<char>) {
    && i <= n <= |s| && (forall j | i <= j < n :: s[j] != '\n') && (n < |s| ==> s[n] == '\n')
    && value == if i < n && s[i] == ' ' then s[i + 1..n] else s[i..n]
  }

  lemma LineEndIs(s: seq<char>, i: nat, r: nat)
    requires i <= r <= |s| && (forall j | i <= j < r :: s[j] != '\n') && (r < |s| ==> s[r] == '\n')
    ensures LineEnd(s, i) == r
  {
  }

  lemma {:induction false} RestIs(s: CText, i: nat, n: nat, value: CText)
    requires ValueAt(s, i, n, value)
    ensures RestOfLine(s, i) == value
  {
    LineEndIs(s, i, n);
  }

  /** What a name asks for, given a key and a value. */
  lemma {:induction false} KeyCommand(s: CText, name: CText, i: nat, key: CText, j: nat, value: CText)
    requires i <= |s| && j <= |s| && name != "" && name != "AUTH" && name != "KV_SNAPSHOT" && key != ""
    requires NextToken(s, 0) == (name, i) && NextToken(s, i) == (key, j) && RestOfLine(s, j) == value
    ensures ParseCommand(s) ==
            if name == "KV_INSERT" then if value == "" then NoValue(KvInsert) else Kv(KvInsert, key, value)
            else if name == "KV_UPDATE" then if value == "" then NoValue(KvUpdate) else Kv(KvUpdate, key, value)
            else if name == "KV_GET" then Kv(KvGet, key, value)
            else if name == "KV_DELETE" then Kv(KvDelete, key, value)
            else Unknown(name)
  {
  }

  /** The whole table of a line with a key. */
  lemma {:induction false} KeyLine(s: CText, a: nat, b: nat, c: nat, d: nat, n: nat, name: CText, key: CText,
                                   value: CText)
    requires WordAt(s, 0, a, b) && name == s[a..b] && name != "AUTH" && name != "KV_SNAPSHOT"
    requires WordAt(s, b, c, d) && key == s[c..d] && ValueAt(s, d, n, value)
    ensures ParseCommand(s) ==
            if name == "KV_INSERT" then if value == "" then NoValue(KvInsert) else Kv(KvInsert, key, value)
            else if name == "KV_UPDATE" then if value == "" then NoValue(KvUpdate) else Kv(KvUpdate, key, value)
            else if name == "KV_GET" then Kv(KvGet, key, value)
            else if name == "KV_DELETE" then Kv(KvDelete, key, value)
            else Unknown(name)
  {
    ReadsWord(s, 0, a, b);
    ReadsWord(s, b, c, d);
    RestIs(s, d, n, value);
    KeyCommand(s, name, b, key, d, value);
  }

  lemma {:induction false} WordOrBlank(s: CText, i: nat) returns (from: nat, to: nat)
    requires i <= |s|
    ensures to <= |s| && (BlankFrom(s, i) || WordAt(s, i, from, to))
  {
    from := SpacesEnd(s, i);
    to := TokenEnd(s, from);
  }

  lemma {:induction false} SomeValue(s: CText, i: nat) returns (n: nat, value: CText)
    requires i <= |s|
    ensures ValueAt(s, i, n, value)
  {
    n := LineEnd(s, i);
    value := if i < n && s[i] == ' ' then s[i + 1..n] else s[i..n];
  }

  /** Every line is one of these. */
  lemma {:induction false} EveryLine(s: CText)
      returns (a: nat, b: nat, c: nat, d: nat, e: nat, f: nat, n: nat, value: CText)
    ensures BlankFrom(s, 0) || (WordAt(s, 0, a, b) &&
              (BlankFrom(s, b) || (WordAt(s, b, c, d) && ValueAt(s, d, n, value) &&
                (BlankFrom(s, d) || WordAt(s, d, e, f)))))
  {
    a, b := WordOrBlank(s, 0);
    c, d := WordOrBlank(s, b);
    e, f := WordOrBlank(s, d);
    n, value := SomeValue(s, d);
  }

  /** An insert or update that reaches the store has a value. */
  lemma ValueNotEmpty(s: CText)
    ensures var c := ParseCommand(s); c.Kv? && (c.op.KvInsert? || c.op.KvUpdate?) ==> c.value != ""
  {
  }

  /** Printed without a value, with or without the trailing blank, it is refused. */
  lemma {:induction false} PrintedWithoutValue(op: KvOp, key: u64, front: CText, s: CText)
    requires op.KvInsert? || op.KvUpdate?
    requires front == (if op.KvInsert? then "KV_INSERT" else "KV_UPDATE") + " " + ToText(key)
    requires s == front || s == front + " " + ""
    ensures ParseCommand(s) == NoValue(op)
  {
    assert s[..|front|] == front && (|front| < |s| ==> s[|front|] == ' ');
    OpNames(op);
    ParseFront(OpName(op), ToText(key), front, s);
    RestPrinted(front, "", s);
  }

  /** The field holds the first 63 bytes of the value. */
  lemma {:induction false} MessageHolds(value: CText)
    ensures CString(MessageValue(value)) == if |value| < MAX_VALUE_LEN then value else value[..63]
  {
    FieldCodec(if |value| < MAX_VALUE_LEN then value else value[..MAX_VALUE_LEN - 1]);
  }

  /** End to end: for every key and every non-empty value without newline, the kernel receives
      the operation, the key, and the value cut to its first 63 bytes. */
  lemma {:induction false} CommandRoundTrip(op: KvOp, key: u64, value: CText)
    requires NeedsValue(op) && value != "" && '\n' !in value
    ensures MessageOf(ParseCommand(PrintCommand(op, key, value))) == Some((op, key, MessageValue(value)))
    ensures CString(MessageValue(value)) == if |value| < MAX_VALUE_LEN then value else value[..63]
  {
    ParsePrinted(op, key, value);
    KeyCodec(key);
    MessageHolds(value);
  }

  /** A get or delete carries the key and an empty value. */
  lemma {:induction false} KeyOnlyRoundTrip(op: KvOp, key: u64)
    requires !NeedsValue(op)
    ensures MessageOf(ParseCommand(PrintCommand(op, key, ""))) == Some((op, key, MessageValue("")))
  {
    ParsePrinted(op, key, "");
    KeyCodec(key);
  }

  // ---- a connection ----

  type Oracle = (CText, CText) -> bool

  /** A command that logs the connection in. */
  predicate LogsIn(pam: Oracle, c: Command) {
    c.Auth? && pam(c.user, c.password)
  }

  /** A command that reaches the store, given an authenticated connection. */
  predicate Reaches(c: Command) {
    c.TakeSnapshot? || MessageOf(c).Some?
  }

  function AuthAfter(pam: Oracle, auth: bool, c: Command): bool {
    auth || LogsIn(pam, c)
  }

  /** The flag of a connection after these commands. */
  function AuthAfterAll(pam: Oracle, cs: seq<Command>): bool {
    cs != [] && AuthAfter(pam, AuthAfterAll(pam, cs[..|cs| - 1]), cs[|cs| - 1])
  }

  /** A connection is authenticated exactly when one of its commands was a successful AUTH, so
      logging in is never undone. */
  lemma {:induction false} SessionLaw(pam: Oracle, cs: seq<Command>)
    ensures AuthAfterAll(pam, cs) <==> exists j :: 0 <= j < |cs| && LogsIn(pam, cs[j])
  {
    if cs != [] {
      var front := cs[..|cs| - 1];
      SessionLaw(pam, front);
      if exists j :: 0 <= j < |front| && LogsIn(pam, front[j]) {
        var j :| 0 <= j < |front| && LogsIn(pam, front[j]);
        assert LogsIn(pam, cs[j]);
      }
      if exists j :: 0 <= j < |cs| && LogsIn(pam, cs[j]) {
        var j :| 0 <= j < |cs| && LogsIn(pam, cs[j]);
        assert j < |front| ==> LogsIn(pam, front[j]);
      }
    }
  }
}
