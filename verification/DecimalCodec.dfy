/** Canonical decimals: the counter payload and the version prefix of a cursor. */
module DecimalCodec {
  import opened Storage

  const MAX_INT64 := 0x7FFF_FFFF_FFFF_FFFF

  function Digit(d: nat): char
    requires d < 10
  {
    '0' + d as char
  }

  predicate IsDigit(c: char) { '0' <= c <= '9' }

  function DigitValue(c: char): nat
    requires IsDigit(c)
  {
    (c - '0') as nat
  }

  /** The shortest decimal rendering, as strconv.FormatUint and strconv.Itoa give it. */
  function Format(n: nat): string {
    if n < 10 then [Digit(n)] else Format(n / 10) + [Digit(n % 10)]
  }

  datatype Parsed = Parsed(value: nat) | NotDecimal | OutOfRange

  /** Reads digits left to right from acc, as strconv does: a number that outgrows max is reported
      before anything behind it is looked at. */
  function ParseFrom(s: string, acc: nat, max: nat): (r: Parsed)
    requires acc <= max
    ensures r.Parsed? ==> r.value <= max
  {
    if s == "" then Parsed(acc)
    else if !IsDigit(s[0]) then NotDecimal
    else if acc * 10 + DigitValue(s[0]) > max then OutOfRange
    else ParseFrom(s[1..], acc * 10 + DigitValue(s[0]), max)
  }

  function Parse(s: string, max: nat): Parsed {
    if s == "" then NotDecimal else ParseFrom(s, 0, max)
  }

  lemma {:induction false} FormatIsDigits(n: nat)
    ensures Format(n) != "" && forall i :: 0 <= i < |Format(n)| ==> IsDigit(Format(n)[i])
  {
    if n >= 10 { FormatIsDigits(n / 10); }
  }

  lemma {:induction false} ParseAppends(s: string, t: string, acc: nat, max: nat)
    requires acc <= max && ParseFrom(s, acc, max).Parsed?
    ensures ParseFrom(s + t, acc, max) == ParseFrom(t, ParseFrom(s, acc, max).value, max)
  {
    if s == "" {
      assert s + t == t;
    } else {
      assert (s + t)[1..] == s[1..] + t;
      ParseAppends(s[1..], t, acc * 10 + DigitValue(s[0]), max);
    }
  }

  lemma {:induction false} ParseFormat(n: nat, max: nat)
    requires n <= max
    ensures ParseFrom(Format(n), 0, max) == Parsed(n)
  {
    if n >= 10 {
      ParseFormat(n / 10, max);
      ParseAppends(Format(n / 10), [Digit(n % 10)], 0, max);
      assert DigitValue(Digit(n % 10)) == n % 10;
    }
  }

  lemma FormatIsInjective(a: nat, b: nat)
    requires Format(a) == Format(b)
    ensures a == b
  {
    ParseFormat(a, if a < b then b else a);
    ParseFormat(b, if a < b then b else a);
  }

  function Pow10(k: nat): nat {
    if k == 0 then 1 else 10 * Pow10(k - 1)
  }

  lemma {:induction false} FormatLength(n: nat, k: nat)
    requires n < Pow10(k) && 0 < k
    ensures |Format(n)| <= k
  {
    if n >= 10 {
      assert k > 1 by { assert Pow10(1) == 10 * Pow10(0) == 10; }
      FormatLength(n / 10, k - 1);
    }
  }

  lemma Uint64Length(n: uint64)
    ensures |Format(n)| <= 20
  {
    assert Pow10(5) == 10 * Pow10(4) == 100_000;
    assert Pow10(10) == 10 * Pow10(9) == 10_000_000_000;
    assert Pow10(15) == 10 * Pow10(14) == 1_000_000_000_000_000;
    assert Pow10(20) == 10 * Pow10(19) == 100_000_000_000_000_000_000;
    FormatLength(n, 20);
  }

  // ---- the counter payload -------------------------------------------------

  datatype Counter = Order(order: uint64) | CounterNotDecimal | CounterOutOfRange | CounterZero | CounterNotCanonical

  function EncodeCounter(order: uint64): string {
    Format(order)
  }

  function DecodeCounter(data: string): Counter {
    match Parse(data, MAX_UINT64)
    case NotDecimal => CounterNotDecimal
    case OutOfRange => CounterOutOfRange
    case Parsed(order) =>
      if order == 0 then CounterZero
      else if EncodeCounter(order) != data then CounterNotCanonical
      else Order(order)
  }

  /** A payload is accepted exactly when it is the canonical rendering of a nonzero order, and then
      gives that order back. */
  lemma CounterIsCanonical(data: string, order: uint64)
    ensures DecodeCounter(data) == Order(order) <==> 0 < order && data == EncodeCounter(order)
  {
    FormatIsDigits(order);
    ParseFormat(order, MAX_UINT64);
  }

  // ---- the cursor version --------------------------------------------------

  const CURSOR_PREFIX := "oi"

  function VersionedToken(version: nat, body: string): string {
    CURSOR_PREFIX + Format(version) + "." + body
  }

  /** In an issued token the first '.' ends the digits of the version. */
  lemma IssuedToken(token: string, rest: string, dot: nat, v: nat, body: string)
    requires token == VersionedToken(v, body) && token == CURSOR_PREFIX + rest
    requires dot <= |rest| && (forall i :: 0 <= i < dot ==> rest[i] != '.') && (dot < |rest| ==> rest[dot] == '.')
    ensures 0 < dot < |rest| && rest[..dot] == Format(v) && ParseFrom(rest[..dot], 0, if v <= MAX_INT64 then MAX_INT64 else v) == Parsed(v)
    ensures forall i :: 0 <= i < dot ==> IsDigit(rest[i])
  {
    FormatIsDigits(v);
    ParseFormat(v, if v <= MAX_INT64 then MAX_INT64 else v);
    assert token == CURSOR_PREFIX + (Format(v) + "." + body);
    assert rest == token[|CURSOR_PREFIX|..] == Format(v) + "." + body;
    assert rest[|Format(v)|] == '.';
    assert forall i :: 0 <= i < |Format(v)| ==> rest[i] == Format(v)[i];
  }

  /** Splits a token into its version and body, accepting only the spelling that is ever issued. */
  method SplitCursorVersion(token: string) returns (version: nat, body: string, ok: bool)
    ensures ok ==> version <= MAX_INT64 && token == VersionedToken(version, body) == "oi" + Format(version) + "." + body
    ensures !ok ==> forall v: nat, b: string :: v <= MAX_INT64 ==> token != VersionedToken(v, b)
  {
    hide Format, ParseFrom, IsDigit;
    version, body := 0, "";
    if !(CURSOR_PREFIX <= token) { return 0, "", false; }
    var rest := token[|CURSOR_PREFIX|..];
    var dot := 0;
    while dot < |rest| && rest[dot] != '.'
      invariant dot <= |rest|
      invariant forall i :: 0 <= i < dot ==> rest[i] != '.'
    {
      dot := dot + 1;
    }
    assert token == CURSOR_PREFIX + rest;
    forall v: nat, b: string | token == VersionedToken(v, b)
      ensures 0 < dot < |rest| && rest[..dot] == Format(v) && (forall i :: 0 <= i < dot ==> IsDigit(rest[i]))
      ensures v <= MAX_INT64 ==> Parse(rest[..dot], MAX_INT64) == Parsed(v)
    {
      IssuedToken(token, rest, dot, v, b);
    }
    if dot == |rest| || dot == 0 { return 0, "", false; }
    var digits := rest[..dot];
    for i := 0 to |digits| {
      if !IsDigit(digits[i]) { return 0, "", false; }
    }
    var parsed := Parse(digits, MAX_INT64);
    if !parsed.Parsed? || Format(parsed.value) != digits { return 0, "", false; }
    version, body, ok := parsed.value, rest[dot + 1..], true;
    assert rest == digits + "." + body;
  }

  // ---- what the digits are -------------------------------------------------

  /** The rendering is the usual one: '0' to '9', the last digit last. */
  lemma FormatIsDecimal(n: nat, d: nat)
    requires d < 10
    ensures Format(d) == [(0x30 + d) as char]
    ensures 0 < n ==> Format(10 * n + d) == Format(n) + [(0x30 + d) as char]
  {
    assert (10 * n + d) / 10 == n && (10 * n + d) % 10 == d;
  }

  lemma {:induction false} ParseRefuses(s: string, acc: nat, max: nat)
    requires acc <= max
    ensures ParseFrom(s, acc, max).NotDecimal? ==> exists i :: 0 <= i < |s| && !('0' <= s[i] <= '9')
    ensures ParseFrom(s, acc, max).OutOfRange? ==> exists i :: 0 <= i < |s| && '0' <= s[i] <= '9'
    ensures ParseFrom(s, acc, max).Parsed? ==> forall i :: 0 <= i < |s| ==> '0' <= s[i] <= '9'
  {
    if s != "" && IsDigit(s[0]) && acc * 10 + DigitValue(s[0]) <= max { ParseRefuses(s[1..], acc * 10 + DigitValue(s[0]), max); }
  }

  /** Why a payload is refused: it is not digits, it is zero, it is padded, or it is too large. */
  lemma CounterRefusals(data: string)
    ensures data == "" ==> DecodeCounter(data).CounterNotDecimal?
    ensures DecodeCounter(data).CounterNotDecimal? ==> data == "" || exists i :: 0 <= i < |data| && !('0' <= data[i] <= '9')
    ensures DecodeCounter(data).CounterZero? || DecodeCounter(data).CounterNotCanonical? ==>
              data != "" && forall i :: 0 <= i < |data| ==> '0' <= data[i] <= '9'
    ensures DecodeCounter("0").CounterZero? && DecodeCounter("00").CounterZero?
    ensures DecodeCounter("01").CounterNotCanonical?
  {
    if data != "" { ParseRefuses(data, 0, MAX_UINT64); }
    assert ParseFrom("", 0, MAX_UINT64) == Parsed(0) && ParseFrom("", 1, MAX_UINT64) == Parsed(1);
    assert "0"[1..] == "" && "00"[1..] == "0" && "01"[1..] == "1" && "1"[1..] == "";
    assert ParseFrom("0", 0, MAX_UINT64) == Parsed(0) && ParseFrom("1", 0, MAX_UINT64) == Parsed(1);
    assert ParseFrom("00", 0, MAX_UINT64) == Parsed(0) && ParseFrom("01", 0, MAX_UINT64) == Parsed(1);
  }
}
