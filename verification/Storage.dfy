/** The contract values every module shares: integer widths, the name grammar,
    and the ordered record with its validity rule. A namespace owns one stream,
    so identities below are taken within a fixed namespace. */
module Storage {
  const MAX_UINT64 := 0xFFFF_FFFF_FFFF_FFFF

  /** Limits the storage contract fixes; all that is used of them is that they allow something. */
  type Limit = n: int | 1 <= n witness 1
  const MAX_ORDERED_VALUE_BYTES: Limit
  const MAX_STABLE_KEY_BYTES: Limit
  const MAX_ORDERED_PAGE_LIMIT: Limit

  type uint64 = n: int | 0 <= n <= MAX_UINT64
  type int64 = n: int | -0x8000_0000_0000_0000 <= n <= 0x7FFF_FFFF_FFFF_FFFF
  type byte = n: int | 0 <= n < 256

  datatype Option<+T> = None | Some(value: T)

  predicate SegmentStart(c: char) {
    'a' <= c <= 'z' || '0' <= c <= '9'
  }

  predicate NameChar(c: char) {
    SegmentStart(c) || c == '_' || c == '.' || c == '-' || c == '/'
  }

  /** A name is a nonempty '/'-joined list of segments over [a-z0-9][a-z0-9_.-]*. */
  predicate ValidName(name: string) {
    && 0 < |name| && SegmentStart(name[0])
    && (forall i :: 0 <= i < |name| ==> NameChar(name[i]))
    && (forall i :: 0 <= i < |name| && name[i] == '/' ==> i + 1 < |name| && SegmentStart(name[i + 1]))
  }

  datatype Identity = Identity(orderingScope: string, stableKey: string)

  datatype Due = NotDue | DueAt(unixMillis: int64)

  datatype Rank = Rank(ranked: bool, value: int64)

  const UNRANKED := Rank(false, 0)

  datatype OrderedRecord = OrderedRecord(
    id: Identity,
    rankingScope: string,
    revision: uint64,
    order: uint64,
    due: Due,
    rank: Rank,
    deleted: bool,
    value: seq<byte>)

  predicate Continues(s: string, from: nat, n: nat) {
    from + n <= |s| && forall i :: from <= i < from + n ==> 0x80 <= s[i] as int <= 0xBF
  }

  /** How many bytes the UTF-8 sequence at the start of s takes (section 4 of RFC 3629); zero if there
      is none. Strings hold one byte per character. */
  function Utf8Length(s: string): (n: nat)
    ensures n <= |s|
  {
    if s == "" then 0
    else
      var b := s[0] as int;
      var c := if |s| > 1 then s[1] as int else 0;
      if b <= 0x7F then 1
      else if 0xC2 <= b <= 0xDF && Continues(s, 1, 1) then 2
      else if 0xE0 <= b <= 0xEF && Continues(s, 1, 2) && (b == 0xE0 ==> 0xA0 <= c) && (b == 0xED ==> c <= 0x9F) then 3
      else if 0xF0 <= b <= 0xF4 && Continues(s, 1, 3) && (b == 0xF0 ==> 0x90 <= c) && (b == 0xF4 ==> c <= 0x8F) then 4
      else 0
  }

  predicate ValidUtf8(s: string) {
    s == "" || (Utf8Length(s) != 0 && ValidUtf8(s[Utf8Length(s)..]))
  }

  /** A stable key is any nonempty UTF-8 text within the limit. */
  predicate ValidStableKey(key: string) {
    0 < |key| <= MAX_STABLE_KEY_BYTES && ValidUtf8(key)
  }

  predicate ValidIdentity(id: Identity) {
    ValidName(id.orderingScope) && ValidStableKey(id.stableKey)
  }

  predicate ValidOrderedLimit(limit: int) {
    1 <= limit <= MAX_ORDERED_PAGE_LIMIT
  }

  predicate ValidRecord(rec: OrderedRecord) {
    && ValidIdentity(rec.id)
    && ValidName(rec.rankingScope)
    && 0 < rec.revision
    && 0 < rec.order
    && |rec.value| <= MAX_ORDERED_VALUE_BYTES
    && (rec.deleted ==> !rec.rank.ranked && rec.due == NotDue)
  }

  /** A record is refused exactly for a bad identity, a bad ranking scope, a zero revision or order, an
      oversized value, or a tombstone that is still ranked or due. */
  lemma RecordRules(rec: OrderedRecord)
    ensures !ValidRecord(rec) <==>
            || !ValidName(rec.id.orderingScope) || rec.id.stableKey == "" || MAX_STABLE_KEY_BYTES < |rec.id.stableKey|
            || !ValidUtf8(rec.id.stableKey) || !ValidName(rec.rankingScope)
            || rec.revision == 0 || rec.order == 0 || MAX_ORDERED_VALUE_BYTES < |rec.value|
            || (rec.deleted && (rec.rank.ranked || rec.due != NotDue))
  {
  }

  // ---- UTF-8 ---------------------------------------------------------------

  predicate Scalar(cp: int) { 0 <= cp <= 0x10FFFF && !(0xD800 <= cp <= 0xDFFF) }

  function Trail(bits: nat): char { (0x80 + bits % 64) as char }

  /** The encoding of one code point (section 3 of RFC 3629). */
  function Rune(cp: int): string
    requires Scalar(cp)
  {
    if cp < 0x80 then [cp as char]
    else if cp < 0x800 then [(0xC0 + cp / 64) as char, Trail(cp)]
    else if cp < 0x1_0000 then [(0xE0 + cp / 4096) as char, Trail(cp / 64), Trail(cp)]
    else [(0xF0 + cp / 262144) as char, Trail(cp / 4096), Trail(cp / 64), Trail(cp)]
  }

  function Runes(cps: seq<int>): string
    requires forall i :: 0 <= i < |cps| ==> Scalar(cps[i])
  {
    if cps == [] then "" else Rune(cps[0]) + Runes(cps[1..])
  }

  predicate EncodedAs(s: string, cps: seq<int>) {
    (forall i :: 0 <= i < |cps| ==> Scalar(cps[i])) && Runes(cps) == s
  }

  lemma RuneIsRead(cp: int, rest: string)
    requires Scalar(cp)
    ensures Utf8Length(Rune(cp) + rest) == |Rune(cp)|
  {
    var r := Rune(cp);
    var s := r + rest;
    assert s[0] == r[0] && (|r| > 1 ==> s[1] == r[1]) && (|r| > 2 ==> s[2] == r[2]) && (|r| > 3 ==> s[3] == r[3]);
    if |r| == 2 { assert Continues(s, 1, 1); }
    if |r| == 3 { assert Continues(s, 1, 2); }
    if |r| == 4 { assert Continues(s, 1, 3); }
  }

  lemma ReadIsRune(s: string) returns (cp: int)
    requires Utf8Length(s) != 0
    ensures Scalar(cp) && Rune(cp) == s[..Utf8Length(s)]
  {
    hide Continues, Rune;
    var n := Utf8Length(s);
    var b := s[0] as int;
    if n == 1 { cp := b; RuneOf1(s, cp); }
    else if n == 2 { cp := RuneOf2(s); }
    else if n == 3 { cp := RuneOf3(s); }
    else { cp := RuneOf4(s); }
  }

  lemma RuneOf1(s: string, cp: int)
    requires s != "" && s[0] as int == cp < 0x80
    ensures Scalar(cp) && Rune(cp) == s[..1]
  {
  }

  lemma Places(x: nat, y: nat, z: nat, w: nat)
    requires x < 64 && y < 64 && z < 64
    ensures (w * 64 + x) / 64 == w && (w * 64 + x) % 64 == x
    ensures ((w * 64 + y) * 64 + x) / 4096 == w && ((w * 64 + y) * 64 + x) / 64 == w * 64 + y
    ensures (((w * 64 + z) * 64 + y) * 64 + x) / 262144 == w && (((w * 64 + z) * 64 + y) * 64 + x) / 4096 == w * 64 + z
  {
  }

  lemma RuneOf2(s: string) returns (cp: int)
    requires |s| >= 2 && 0xC2 <= s[0] as int <= 0xDF && Continues(s, 1, 1)
    ensures Scalar(cp) && Rune(cp) == s[..2]
  {
    var x, w := s[1] as int - 0x80, s[0] as int - 0xC0;
    cp := w * 64 + x;
    Places(x, 0, 0, w);
    assert Rune(cp) == [s[0], s[1]] == s[..2];
  }

  lemma RuneOf3(s: string) returns (cp: int)
    requires |s| >= 3 && 0xE0 <= s[0] as int <= 0xEF && Continues(s, 1, 2)
    requires (s[0] as int == 0xE0 ==> 0xA0 <= s[1] as int) && (s[0] as int == 0xED ==> s[1] as int <= 0x9F)
    ensures Scalar(cp) && Rune(cp) == s[..3]
  {
    var x, y, w := s[2] as int - 0x80, s[1] as int - 0x80, s[0] as int - 0xE0;
    cp := (w * 64 + y) * 64 + x;
    Places(x, y, 0, w);
    Places(x, 0, 0, w * 64 + y);
    Places(y, 0, 0, w);
    assert Rune(cp) == [s[0], s[1], s[2]] == s[..3];
  }

  lemma RuneOf4(s: string) returns (cp: int)
    requires |s| >= 4 && 0xF0 <= s[0] as int <= 0xF4 && Continues(s, 1, 3)
    requires (s[0] as int == 0xF0 ==> 0x90 <= s[1] as int) && (s[0] as int == 0xF4 ==> s[1] as int <= 0x8F)
    ensures Scalar(cp) && Rune(cp) == s[..4]
  {
    var x, y, z, w := s[3] as int - 0x80, s[2] as int - 0x80, s[1] as int - 0x80, s[0] as int - 0xF0;
    cp := ((w * 64 + z) * 64 + y) * 64 + x;
    Places(x, y, z, w);
    Places(x, 0, 0, (w * 64 + z) * 64 + y);
    Places(y, 0, 0, w * 64 + z);
    Places(z, 0, 0, w);
    assert cp / 64 == (w * 64 + z) * 64 + y;
    assert Rune(cp) == [s[0], s[1], s[2], s[3]] == s[..4];
  }

  /** A stable key passes exactly if it is the UTF-8 encoding of some code points. */
  lemma Utf8IsEncoding(s: string)
    ensures ValidUtf8(s) <==> exists cps: seq<int> :: EncodedAs(s, cps)
  {
    if ValidUtf8(s) { var cps := DecodeAll(s); }
    forall cps | EncodedAs(s, cps) ensures ValidUtf8(s) { EncodedIsValid(cps); }
  }

  lemma {:induction false} DecodeAll(s: string) returns (cps: seq<int>)
    requires ValidUtf8(s)
    ensures EncodedAs(s, cps)
    decreases |s|
  {
    if s == "" { return []; }
    var n := Utf8Length(s);
    var cp := ReadIsRune(s);
    var rest := DecodeAll(s[n..]);
    cps := [cp] + rest;
    assert cps[1..] == rest && s == s[..n] + s[n..];
  }

  lemma {:induction false} EncodedIsValid(cps: seq<int>)
    requires forall i :: 0 <= i < |cps| ==> Scalar(cps[i])
    ensures ValidUtf8(Runes(cps))
  {
    if cps != [] {
      EncodedIsValid(cps[1..]);
      RuneIsRead(cps[0], Runes(cps[1..]));
      assert Runes(cps)[|Rune(cps[0])|..] == Runes(cps[1..]);
    }
  }

  // ---- the name grammar ----------------------------------------------------

  predicate ValidSegment(s: string) {
    && s != "" && ('a' <= s[0] <= 'z' || '0' <= s[0] <= '9')
    && forall i :: 0 <= i < |s| ==> 'a' <= s[i] <= 'z' || '0' <= s[i] <= '9' || s[i] == '_' || s[i] == '.' || s[i] == '-'
  }

  function Slashed(segments: seq<string>): string {
    if segments == [] then "" else if |segments| == 1 then segments[0] else segments[0] + "/" + Slashed(segments[1..])
  }

  /** A name is valid if and only if it is one or more segments joined by slashes. */
  lemma NameIsSegments(name: string)
    ensures ValidName(name) <==> exists segments: seq<string> :: SegmentsOf(name, segments)
  {
    if ValidName(name) { var segments := SplitName(name); }
    forall segments | SegmentsOf(name, segments) ensures ValidName(name) { JoinedIsValid(segments); }
  }

  predicate SegmentsOf(name: string, segments: seq<string>) {
    segments != [] && (forall i :: 0 <= i < |segments| ==> ValidSegment(segments[i])) && Slashed(segments) == name
  }

  lemma {:induction false} JoinedIsValid(segments: seq<string>)
    requires segments != [] && forall i :: 0 <= i < |segments| ==> ValidSegment(segments[i])
    ensures ValidName(Slashed(segments))
  {
    if |segments| > 1 {
      JoinedIsValid(segments[1..]);
      var first, rest := segments[0], Slashed(segments[1..]);
      var name := first + "/" + rest;
      assert forall i :: |first| < i < |name| ==> name[i] == rest[i - |first| - 1];
    }
  }

  function SlashAt(s: string): (n: nat)
    ensures n <= |s| && '/' !in s[..n] && (n < |s| ==> s[n] == '/')
  {
    if s == "" || s[0] == '/' then 0 else
      var n := SlashAt(s[1..]);
      assert s[..n + 1] == [s[0]] + s[1..][..n];
      n + 1
  }

  lemma {:induction false} SplitName(name: string) returns (segments: seq<string>)
    requires ValidName(name)
    ensures SegmentsOf(name, segments)
    decreases |name|
  {
    var n := SlashAt(name);
    var first := name[..n];
    assert forall i :: 0 <= i < n ==> first[i] == name[i] && first[i] != '/';
    if n == |name| {
      assert first == name;
      return [name];
    }
    var rest := name[n + 1..];
    var tail := SplitName(rest);
    segments := [first] + tail;
    assert segments[1..] == tail && name == first + "/" + rest;
  }
}
