/** Decimal text: std::to_string, strtoull in base 10 (section 7.22.1.4 of ISO/IEC
    9899:2011), the daemon's parse_key, and the benchmark's check_value. */
module Decimal {
  import opened KvTypes

  predicate IsDigit(c: char) {
    '0' <= c <= '9'
  }

  // Blank, tab, newline, vertical tab, form feed, carriage return.
  const WHITE_SPACE := " \t\n\U{000B}\U{000C}\r"

  /** isspace in the C locale. */
  predicate IsSpace(c: char)
    ensures IsSpace(c) <==> c in WHITE_SPACE
  {
    c == ' ' || '\t' <= c <= '\r'
  }

  predicate AllDigits(s: seq<char>) {
    forall i | 0 <= i < |s| :: IsDigit(s[i])
  }

  const DIGITS := "0123456789"

  function DigitVal(c: char): (d: nat)
    requires IsDigit(c)
    ensures d < 10 && DIGITS[d] == c
  {
    c as int - '0' as int
  }

  function DigitChar(d: nat): (c: Byte)
    requires d < 10
    ensures IsDigit(c) && DigitVal(c) == d
  {
    (d + '0' as int) as char
  }

  /** The number a string of digits stands for, most significant first. */
  function Magnitude(s: seq<char>): nat
    requires AllDigits(s)
  {
    if s == [] then 0 else Magnitude(s[..|s| - 1]) * 10 + DigitVal(s[|s| - 1])
  }

  /** std::to_string of an unsigned number. */
  function ToText(n: nat): (s: CText)
    ensures |s| > 0 && AllDigits(s)
    ensures Magnitude(s) == n
    ensures if n == 0 then s == "0" else s[0] != '0'
  {
    if n < 10 then
      var s := [DigitChar(n)];
      assert s[..0] == [];
      s
    else
      var s := ToText(n / 10) + [DigitChar(n % 10)];
      assert s[..|s| - 1] == ToText(n / 10);
      s
  }

  function Pow10(d: nat): nat {
    if d == 0 then 1 else 10 * Pow10(d - 1)
  }

  lemma {:induction false} TextLength(n: nat, d: nat)
    requires d > 0 && n < Pow10(d)
    ensures |ToText(n)| <= d
  {
    if n >= 10 {
      assert d > 1;
      TextLength(n / 10, d - 1);
    }
  }

  /** A 64-bit number prints in at most 20 characters. */
  lemma KeyLength(k: u64)
    ensures |ToText(k)| <= 20
  {
    assert Pow10(5) == 100_000;
    assert Pow10(10) == 100_000 * Pow10(5);
    assert Pow10(15) == 100_000 * Pow10(10);
    assert Pow10(20) == 100_000 * Pow10(15);
    TextLength(k, 20);
  }

  /** The first position at or after i that does not hold a digit. */
  function DigitsEnd(s: seq<char>, i: nat): (r: nat)
    requires i <= |s|
    ensures i <= r <= |s| && AllDigits(s[i..r])
    ensures r < |s| ==> !IsDigit(s[r])
    decreases |s| - i
  {
    if i < |s| && IsDigit(s[i]) then
      var r := DigitsEnd(s, i + 1);
      assert s[i..r] == [s[i]] + s[i + 1..r];
      r
    else i
  }

  function SpacesEnd(s: seq<char>, i: nat): (r: nat)
    requires i <= |s|
    ensures i <= r <= |s|
    ensures forall j | i <= j < r :: IsSpace(s[j])
    ensures r < |s| ==> !IsSpace(s[r])
    decreases |s| - i
  {
    if i < |s| && IsSpace(s[i]) then SpacesEnd(s, i + 1) else i
  }

  // value: what strtoull returns; end: how far it read (0 when it converted nothing).
  datatype Conversion = Conversion(value: u64, end: nat, erange: bool)

  function StrToULL(s: CText): Conversion {
    var i := SpacesEnd(s, 0);
    var signed := i < |s| && (s[i] == '+' || s[i] == '-');
    var from := if signed then i + 1 else i;
    var to := DigitsEnd(s, from);
    var mag := Magnitude(s[from..to]);
    if to == from then Conversion(0, 0, false)
    else if mag >= TWO_64 then Conversion(TWO_64 - 1, to, true)
    else Conversion(if signed && s[i] == '-' then (TWO_64 - mag) % TWO_64 else mag, to, false)
  }

  function ParseKey(s: CText): Option<u64> {
    var c := StrToULL(s);
    if c.erange || c.end == 0 || c.end != |s| then None else Some(c.value)
  }

  /** s is an optional sign followed by the digits ds, at least one. */
  predicate Spelled(s: seq<char>, sign: string, ds: string) {
    (sign == "" || sign == "+" || sign == "-") && |ds| > 0 && AllDigits(ds) && s == sign + ds
  }

  function Denoted(sign: string, mag: nat): (k: u64)
    requires mag < TWO_64
    ensures sign == "-" ==> (k + mag) % TWO_64 == 0
    ensures sign != "-" ==> k == mag
  {
    if sign == "-" then (TWO_64 - mag) % TWO_64 else mag
  }

  lemma DigitsEndOf(s: seq<char>, i: nat, r: nat)
    requires i <= r <= |s| && AllDigits(s[i..r]) && (r < |s| ==> !IsDigit(s[r]))
    ensures DigitsEnd(s, i) == r
    decreases r - i
  {
    if i < r {
      assert s[i..r][0] == s[i];
      assert s[i + 1..r] == s[i..r][1..];
      DigitsEndOf(s, i + 1, r);
    }
  }

  /** A spelled token converts to its magnitude, with the sign applied modulo 2^64. */
  lemma ConvertSpelled(s: CText, sign: string, ds: string)
    requires Spelled(s, sign, ds)
    ensures ParseKey(s) == if Magnitude(ds) < TWO_64 then Some(Denoted(sign, Magnitude(ds))) else None
  {
    assert SpacesEnd(s, 0) == 0;
    var from := |sign|;
    assert s[from..|s|] == ds;
    DigitsEndOf(s, from, |s|);
    assert s[0] == if sign == "" then ds[0] else sign[0];
  }

  /** The daemon accepts a whitespace-free key token exactly when it is an optional sign and
      at least one digit with magnitude below 2^64; minus negates modulo 2^64. */
  lemma ParseKeyAccepts(s: CText, k: u64)
    requires forall i | 0 <= i < |s| :: !IsSpace(s[i])
    ensures ParseKey(s) == Some(k) <==>
            exists sign: string, ds: string ::
              Spelled(s, sign, ds) && Magnitude(ds) < TWO_64 && k == Denoted(sign, Magnitude(ds))
  {
    if ParseKey(s) == Some(k) {
      var from := if |s| > 0 && (s[0] == '+' || s[0] == '-') then 1 else 0;
      var sign, ds := s[..from], s[from..];
      assert s[from..|s|] == ds;
      assert Spelled(s, sign, ds);
      ConvertSpelled(s, sign, ds);
    }
    forall sign: string, ds: string | Spelled(s, sign, ds) {
      ConvertSpelled(s, sign, ds);
    }
  }

  /** parse_key undoes to_string. */
  lemma KeyCodec(k: u64)
    ensures ParseKey(ToText(k)) == Some(k)
  {
    assert ToText(k) == "" + ToText(k);
    ConvertSpelled(ToText(k), "", ToText(k));
  }

  // ---- check_value ----

  predicate OccursAt(s: seq<char>, pat: seq<char>, j: nat) {
    j + |pat| <= |s| && s[j..j + |pat|] == pat
  }

  /** std::string::find: the first position at or after i where pat occurs, or |s|. */
  function FindFrom(s: seq<char>, pat: seq<char>, i: nat): (r: nat)
    requires i <= |s| && |pat| > 0
    ensures i <= r <= |s|
    ensures r < |s| ==> OccursAt(s, pat, r)
    ensures forall j | i <= j < r :: !OccursAt(s, pat, j)
    decreases |s| - i
  {
    if i == |s| then i
    else if OccursAt(s, pat, i) then i
    else FindFrom(s, pat, i + 1)
  }

  predicate QuoteOrSpace(c: char) {
    c == '"' || IsSpace(c)
  }

  function QuotesEnd(s: seq<char>, i: nat): (r: nat)
    requires i <= |s|
    ensures i <= r <= |s|
    ensures forall j | i <= j < r :: QuoteOrSpace(s[j])
    ensures r < |s| ==> !QuoteOrSpace(s[r])
    decreases |s| - i
  {
    if i < |s| && QuoteOrSpace(s[i]) then QuotesEnd(s, i + 1) else i
  }

  const COUNT_TAG: CText := "count:"

  function CheckedValue(resp: seq<char>): Option<nat> {
    var at := FindFrom(resp, COUNT_TAG, 0);
    if at == |resp| then None
    else
      var from := QuotesEnd(resp, at + 6);
      var to := DigitsEnd(resp, from);
      if to == from then None else Some(Magnitude(resp[from..to]))
  }

  /** Skip quotes and white space. */
  method SkipQuotes(resp: string, start: nat) returns (pos: nat)
    requires start <= |resp|
    ensures pos == QuotesEnd(resp, start)
  {
    pos := start;
    while pos < |resp| && QuoteOrSpace(resp[pos])
      invariant start <= pos <= |resp|
      invariant QuotesEnd(resp, pos) == QuotesEnd(resp, start)
    {
      pos := pos + 1;
    }
  }

  lemma MagnitudeStep(s: seq<char>, i: nat, j: nat)
    requires i <= j < |s| && AllDigits(s[i..j]) && IsDigit(s[j])
    ensures AllDigits(s[i..j + 1]) && Magnitude(s[i..j + 1]) == Magnitude(s[i..j]) * 10 + DigitVal(s[j])
  {
    assert s[i..j + 1][..j - i] == s[i..j];
  }

  /** v = v * 10 + digit, while digits last. */
  method ReadDigits(resp: string, start: nat) returns (v: nat)
    requires start <= |resp|
    ensures v == Magnitude(resp[start..DigitsEnd(resp, start)])
  {
    v := 0;
    var pos := start;
    while pos < |resp| && IsDigit(resp[pos])
      invariant start <= pos <= |resp| && AllDigits(resp[start..pos]) && v == Magnitude(resp[start..pos])
      invariant DigitsEnd(resp, pos) == DigitsEnd(resp, start)
    {
      MagnitudeStep(resp, start, pos);
      v := v * 10 + DigitVal(resp[pos]);
      pos := pos + 1;
    }
  }

  /** The first tag of resp stands at at, after it come only quotes and white space up to from, and
      then at least one digit; to is where the digits end. */
  ghost predicate Numeral(resp: seq<char>, at: nat, from: nat, to: nat) {
    && OccursAt(resp, COUNT_TAG, at) && (forall j | 0 <= j < at :: !OccursAt(resp, COUNT_TAG, j))
    && at + 6 <= from < to <= |resp|
    && (forall j | at + 6 <= j < from :: QuoteOrSpace(resp[j]))
    && AllDigits(resp[from..to]) && (to < |resp| ==> !IsDigit(resp[to]))
  }

  lemma NumeralChecked(resp: seq<char>, at: nat, from: nat, to: nat)
    requires Numeral(resp, at, from, to)
    ensures CheckedValue(resp) == Some(Magnitude(resp[from..to]))
  {
    assert resp[from..to][0] == resp[from];
    assert FindFrom(resp, COUNT_TAG, 0) == at;
    assert QuotesEnd(resp, at + 6) == from;
    DigitsEndOf(resp, from, to);
  }

  lemma CheckedNumeral(resp: seq<char>) returns (at: nat, from: nat, to: nat)
    requires CheckedValue(resp).Some?
    ensures Numeral(resp, at, from, to) && CheckedValue(resp) == Some(Magnitude(resp[from..to]))
  {
    at := FindFrom(resp, COUNT_TAG, 0);
    from := QuotesEnd(resp, at + 6);
    to := DigitsEnd(resp, from);
  }

  lemma CheckedExactly(resp: seq<char>)
    ensures CheckedValue(resp).Some? <==> exists at: nat, from: nat, to: nat :: Numeral(resp, at, from, to)
    ensures forall at: nat, from: nat, to: nat | Numeral(resp, at, from, to) ::
              CheckedValue(resp) == Some(Magnitude(resp[from..to]))
  {
    forall at: nat, from: nat, to: nat | Numeral(resp, at, from, to)
      ensures CheckedValue(resp) == Some(Magnitude(resp[from..to]))
    {
      NumeralChecked(resp, at, from, to);
    }
    if CheckedValue(resp).Some? { var at, from, to := CheckedNumeral(resp); }
  }

  /** check_value, on an unbounded accumulator: it succeeds if and only if the first tag is followed by
      quotes and white space only and then a digit, with the number these digits stand for. */
  method CheckValue(resp: string) returns (ok: bool, value: nat)
    ensures ok <==> exists at: nat, from: nat, to: nat :: Numeral(resp, at, from, to)
    ensures forall at: nat, from: nat, to: nat | Numeral(resp, at, from, to) :: value == Magnitude(resp[from..to])
    ensures (if ok then Some(value) else None) == CheckedValue(resp)
  {
    CheckedExactly(resp);
    var pos := FindFrom(resp, COUNT_TAG, 0);
    if pos == |resp| { return false, 0; }
    pos := SkipQuotes(resp, pos + 6);
    if pos >= |resp| || !IsDigit(resp[pos]) { return false, 0; }
    value := ReadDigits(resp, pos);
    ok := true;
  }

  // ---- the hot key's values and the daemon's reply to GET ----

  function HotValue(c: nat): CText {
    COUNT_TAG + ToText(c)
  }

  // The bytes of U+2192 in UTF-8.
  const ARROW: CText := "\U{00E2}\U{0086}\U{0092}"

  function GetResponse(k: u64, v: CText): CText {
    "GET(\"" + ToText(k) + "\") " + ARROW + " \"" + v + "\"\n"
  }

  lemma FindSkips(s: seq<char>, pat: seq<char>, i: nat, r: nat)
    requires i <= r && |pat| > 0 && OccursAt(s, pat, r)
    requires forall j | i <= j < r :: s[j] != pat[0]
    ensures FindFrom(s, pat, i) == r
    decreases r - i
  {
    if i < r {
      assert i + |pat| <= |s| ==> s[i..i + |pat|][0] == s[i];
      FindSkips(s, pat, i + 1, r);
    }
  }

  /** The tag is found at at, and the digits ds follow it. */
  lemma {:induction false} NumberAt(resp: seq<char>, at: nat, ds: seq<char>)
    requires at + 6 + |ds| < |resp| && |ds| > 0 && AllDigits(ds)
    requires FindFrom(resp, COUNT_TAG, 0) == at
    requires (forall j | 0 <= j < |ds| :: resp[at + 6 + j] == ds[j]) && !IsDigit(resp[at + 6 + |ds|])
    ensures CheckedValue(resp) == Some(Magnitude(ds))
  {
    assert resp[at + 6] == ds[0];
    assert resp[at + 6..at + 6 + |ds|] == ds;
    DigitsEndOf(resp, at + 6, at + 6 + |ds|);
  }

  lemma TagBegins(resp: seq<char>, j: nat)
    requires OccursAt(resp, COUNT_TAG, j)
    ensures 'c' in resp
  {
    assert resp[j] == resp[j..j + 6][0];
  }

  /** A response without the letter c carries no number. */
  lemma NoTag(resp: seq<char>)
    requires 'c' !in resp
    ensures CheckedValue(resp) == None
  {
    forall j: nat ensures !OccursAt(resp, COUNT_TAG, j) {
      if OccursAt(resp, COUNT_TAG, j) { TagBegins(resp, j); }
    }
  }

  lemma FindsTag(head: CText, tail: CText)
    requires forall j | 0 <= j < |head| :: head[j] != 'c'
    ensures FindFrom(head + COUNT_TAG + tail, COUNT_TAG, 0) == |head|
  {
    var resp := head + COUNT_TAG + tail;
    assert resp[|head|..|head| + 6] == COUNT_TAG;
    assert forall j | 0 <= j < |head| :: resp[j] == head[j];
    FindSkips(resp, COUNT_TAG, 0, |head|);
  }

  lemma {:induction false} ReadsNumber(head: CText, ds: CText)
    requires |ds| > 0 && AllDigits(ds) && forall j | 0 <= j < |head| :: head[j] != 'c'
    ensures CheckedValue(head + COUNT_TAG + (ds + "\"\n")) == Some(Magnitude(ds))
  {
    var tail := ds + "\"\n";
    var resp := head + COUNT_TAG + tail;
    var at := |head|;
    FindsTag(head, tail);
    NumberAt(resp, at, ds);
  }

  /** Digits that end at a quote: equal texts have equal digits and equal rests. */
  lemma {:induction false} DigitsThenQuote(a: seq<char>, rest: seq<char>, b: seq<char>, rest': seq<char>)
    requires AllDigits(a) && AllDigits(b) && a + rest == b + rest'
    requires rest != [] && rest[0] == '"' && rest' != [] && rest'[0] == '"'
    ensures a == b && rest == rest'
  {
    var s := a + rest;
    assert s[0..|a|] == a && s[|a|..] == rest;
    assert s[0..|b|] == b && s[|b|..] == rest';
    DigitsEndOf(s, 0, |a|);
    DigitsEndOf(s, 0, |b|);
  }

  lemma {:induction false} Cancel(front: seq<char>, a: seq<char>, b: seq<char>, back: seq<char>)
    requires front + a + back == front + b + back
    ensures a == b
  {
    var s := front + a + back;
    assert |a| == |b| && a == s[|front|..|front| + |a|] && b == s[|front|..|front| + |b|];
  }

  lemma {:induction false} ReplyParts(k: u64, v: CText)
    ensures GetResponse(k, v) == "GET(\"" + (ToText(k) + ("\") " + ARROW + " \"" + v + "\"\n")) + []
  {
  }

  /** The reply to a get tells key and value. */
  lemma {:induction false} ReplyTells(k: u64, v: CText, k': u64, v': CText)
    requires GetResponse(k, v) == GetResponse(k', v')
    ensures k == k' && v == v'
  {
    var middle := "\") " + ARROW + " \"";
    var rest, rest' := middle + v + "\"\n", middle + v' + "\"\n";
    ReplyParts(k, v);
    ReplyParts(k', v');
    Cancel("GET(\"", ToText(k) + rest, ToText(k') + rest', []);
    DigitsThenQuote(ToText(k), rest, ToText(k'), rest');
    Cancel(middle, v, v', "\"\n");
  }

  /** check_value reads back the number from the daemon's reply. */
  lemma ReplyCodec(k: u64, c: nat)
    ensures CheckedValue(GetResponse(k, HotValue(c))) == Some(c)
  {
    var head := "GET(\"" + ToText(k) + "\") " + ARROW + " \"";
    assert forall j | 0 <= j < |head| :: head[j] != 'c';
    assert GetResponse(k, HotValue(c)) == head + COUNT_TAG + (ToText(c) + "\"\n");
    ReadsNumber(head, ToText(c));
  }
}
