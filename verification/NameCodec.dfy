/** Storage names as JetStream subjects and stream names, and back. Strings stand for
    byte strings. */
module NameCodec {
  import opened Storage

  // ---- stream names --------------------------------------------------------

  function EncodeChar(c: char): string {
    match c
    case '_' => "_u"
    case '.' => "_d"
    case '/' => "_s"
    case _ => [c]
  }

  /** What encodeStream's loop writes. */
  function StreamOf(name: string): string {
    if name == "" then "" else EncodeChar(name[0]) + StreamOf(name[1..])
  }

  /** What decodeStream's loop reads: each escape stands for one character. */
  function Unescaped(stream: string): Option<string> {
    if stream == "" then Some("")
    else if stream[0] != '_' then Prepend(stream[0], Unescaped(stream[1..]))
    else if |stream| < 2 then None
    else if stream[1] == 'u' then Prepend('_', Unescaped(stream[2..]))
    else if stream[1] == 'd' then Prepend('.', Unescaped(stream[2..]))
    else if stream[1] == 's' then Prepend('/', Unescaped(stream[2..]))
    else None
  }

  function Prepend(c: char, rest: Option<string>): Option<string> {
    if rest.Some? then Some([c] + rest.value) else None
  }

  function Join(done: string, rest: Option<string>): Option<string> {
    if rest.Some? then Some(done + rest.value) else None
  }

  lemma StreamOfStep(done: string, name: string, i: nat)
    requires i < |name|
    ensures done + StreamOf(name[i..]) == done + EncodeChar(name[i]) + StreamOf(name[i + 1..])
  {
  }

  method EncodeStream(name: string) returns (stream: string)
    ensures stream == StreamOf(name)
  {
    hide StreamOf;
    stream := "";
    var i := 0;
    assert name[0..] == name;
    while i < |name|
      invariant i <= |name|
      invariant stream + StreamOf(name[i..]) == StreamOf(name)
    {
      StreamOfStep(stream, name, i);
      match name[i] {
        case '_' => stream := stream + "_u";
        case '.' => stream := stream + "_d";
        case '/' => stream := stream + "_s";
        case _ => stream := stream + [name[i]];
      }
      i := i + 1;
    }
    assert name[i..] == "";
    StreamOfEmpty();
  }

  lemma StreamOfEmpty()
    ensures StreamOf("") == ""
  {
  }

  lemma JoinPrepend(done: string, c: char, rest: Option<string>)
    ensures Join(done, Prepend(c, rest)) == Join(done + [c], rest)
  {
    if rest.Some? { assert done + ([c] + rest.value) == done + [c] + rest.value; }
  }

  method DecodeStream(stream: string) returns (name: Option<string>)
    ensures name == Unescaped(stream)
  {
    var done := "";
    var i := 0;
    assert stream[0..] == stream;
    assert Unescaped(stream).Some? ==> "" + Unescaped(stream).value == Unescaped(stream).value;
    while i < |stream|
      invariant i <= |stream|
      invariant Unescaped(stream) == Join(done, Unescaped(stream[i..]))
      decreases |stream| - i
    {
      ghost var rest := stream[i..];
      var c := stream[i];
      i := i + 1;
      if c == '_' {
        if i >= |stream| { return None; }
        match stream[i] {
          case 'u' => c := '_';
          case 'd' => c := '.';
          case 's' => c := '/';
          case _ => return None;
        }
        i := i + 1;
        assert rest[2..] == stream[i..];
      } else {
        assert rest[1..] == stream[i..];
      }
      JoinPrepend(done, c, Unescaped(stream[i..]));
      done := done + [c];
    }
    assert stream[i..] == "" && done + "" == done;
    name := Some(done);
  }

  lemma {:induction false} UnescapeStreamOf(name: string)
    ensures Unescaped(StreamOf(name)) == Some(name)
  {
    if name != "" {
      UnescapeStreamOf(name[1..]);
      var enc, rest := StreamOf(name), StreamOf(name[1..]);
      assert |EncodeChar(name[0])| == 1 ==> enc[1..] == rest;
      assert |EncodeChar(name[0])| == 2 ==> enc[2..] == rest;
      assert name == [name[0]] + name[1..];
    }
  }

  /** The stream encoding never confuses two strings, valid names or not. */
  lemma StreamOfIsInjective(a: string, b: string)
    requires StreamOf(a) == StreamOf(b)
    ensures a == b
  {
    UnescapeStreamOf(a);
    UnescapeStreamOf(b);
  }

  lemma {:induction false} StreamOfHasNoDots(name: string)
    ensures '.' !in StreamOf(name)
  {
    if name != "" { StreamOfHasNoDots(name[1..]); }
  }

  method NameFromStream(stream: string) returns (name: Option<string>)
    ensures forall n :: name == Some(n) <==> ValidName(n) && stream == StreamOf(n)
  {
    var decoded := DecodeStream(stream);
    forall n | stream == StreamOf(n) ensures decoded == Some(n) { UnescapeStreamOf(n); }
    if decoded.None? || !ValidName(decoded.value) { return None; }
    var again := EncodeStream(decoded.value);
    if again != stream { return None; }
    name := decoded;
  }

  // ---- subjects ------------------------------------------------------------

  /** strings.ReplaceAll for a nonempty old: leftmost, non-overlapping. */
  function ReplaceAll(s: string, old': string, new': string): string
    requires old' != ""
    decreases |s|
  {
    if s == "" then ""
    else if old' <= s then new' + ReplaceAll(s[|old'|..], old', new')
    else [s[0]] + ReplaceAll(s[1..], old', new')
  }

  const DOT_ESCAPE := "%2E"

  function EncodeSubject(name: string): string {
    ReplaceAll(ReplaceAll(name, ".", DOT_ESCAPE), "/", ".")
  }

  function NameFromSubject(subj: string): Option<string> {
    var name := ReplaceAll(ReplaceAll(subj, ".", "/"), DOT_ESCAPE, ".");
    if !ValidName(name) || EncodeSubject(name) != subj then None else Some(name)
  }

  function SubjectChar(c: char): string {
    match c
    case '.' => DOT_ESCAPE
    case '/' => "."
    case _ => [c]
  }

  lemma {:induction false} ReplaceInPrefix(p: string, s: string, c: char, new': string)
    requires c !in p
    ensures ReplaceAll(p + s, [c], new') == p + ReplaceAll(s, [c], new')
  {
    if p == "" {
      assert p + s == s;
    } else {
      assert (p + s)[1..] == p[1..] + s;
      assert !([c] <= p + s) by { assert (p + s)[0] == p[0]; }
      ReplaceInPrefix(p[1..], s, c, new');
      assert p == [p[0]] + p[1..];
    }
  }

  /** The encoding works character by character: dots become escapes before slashes become dots. */
  lemma {:induction false} EncodeSubjectByChar(name: string)
    requires name != ""
    ensures EncodeSubject(name) == SubjectChar(name[0]) + EncodeSubject(name[1..])
  {
    var rest := ReplaceAll(name[1..], ".", DOT_ESCAPE);
    if name[0] == '.' {
      assert "." <= name;
      assert ReplaceAll(name, ".", DOT_ESCAPE) == DOT_ESCAPE + rest;
      ReplaceInPrefix(DOT_ESCAPE, rest, '/', ".");
    } else {
      assert !("." <= name) by { assert name[0] != "."[0]; }
      assert ReplaceAll(name, ".", DOT_ESCAPE) == [name[0]] + rest;
      assert ([name[0]] + rest)[1..] == rest;
      if name[0] == '/' {
        assert "/" <= [name[0]] + rest;
      } else {
        ReplaceInPrefix([name[0]], rest, '/', ".");
      }
    }
  }

  /** Undoing the slash remap leaves the name with only its dots escaped. */
  lemma {:induction false} SlashesRestored(name: string)
    ensures ReplaceAll(EncodeSubject(name), ".", "/") == ReplaceAll(name, ".", DOT_ESCAPE)
  {
    if name != "" {
      EncodeSubjectByChar(name);
      SlashesRestored(name[1..]);
      var enc, rest := EncodeSubject(name), EncodeSubject(name[1..]);
      if name[0] == '/' {
        assert "." <= enc && enc[1..] == rest;
        assert !("." <= name) by { assert name[0] != "."[0]; }
      } else if name[0] == '.' {
        assert "." <= name;
        ReplaceInPrefix(DOT_ESCAPE, rest, '.', "/");
      } else {
        assert !("." <= name) by { assert name[0] != "."[0]; }
        ReplaceInPrefix([name[0]], rest, '.', "/");
      }
    }
  }

  lemma ReplaceSkips(c: char, rest: string, old': string, new': string)
    requires old' != "" && old'[0] != c
    ensures ReplaceAll([c] + rest, old', new') == [c] + ReplaceAll(rest, old', new')
  {
  }

  lemma ReplaceMatches(rest: string, old': string, new': string)
    requires old' != ""
    ensures ReplaceAll(old' + rest, old', new') == new' + ReplaceAll(rest, old', new')
  {
  }

  lemma {:induction false} DotsRestored(name: string)
    requires '%' !in name
    ensures ReplaceAll(ReplaceAll(name, ".", DOT_ESCAPE), DOT_ESCAPE, ".") == name
  {
    hide ReplaceAll;
    if name == "" {
      ReplaceNothing(".", DOT_ESCAPE);
      ReplaceNothing(DOT_ESCAPE, ".");
    } else {
      DotsRestored(name[1..]);
      var rest := ReplaceAll(name[1..], ".", DOT_ESCAPE);
      assert name == [name[0]] + name[1..];
      if name[0] == '.' {
        ReplaceMatches(name[1..], ".", DOT_ESCAPE);
        ReplaceMatches(rest, DOT_ESCAPE, ".");
      } else {
        ReplaceSkips(name[0], name[1..], ".", DOT_ESCAPE);
        ReplaceSkips(name[0], rest, DOT_ESCAPE, ".");
      }
    }
  }

  lemma ReplaceNothing(old': string, new': string)
    requires old' != ""
    ensures ReplaceAll("", old', new') == ""
  {
  }

  /** nameFromSubject succeeds on exactly the encodings of valid names, and returns the name. */
  lemma SubjectRoundTrip(subj: string, name: string)
    ensures NameFromSubject(subj) == Some(name) <==> ValidName(name) && subj == EncodeSubject(name)
  {
    if ValidName(name) && subj == EncodeSubject(name) {
      assert forall i :: 0 <= i < |name| ==> NameChar(name[i]);
      SlashesRestored(name);
      DotsRestored(name);
    }
  }

  /** Subjects do not collide on names without '%', and can collide on names with one. */
  lemma SubjectInjectiveWithoutPercent(a: string, b: string)
    requires '%' !in a && '%' !in b && EncodeSubject(a) == EncodeSubject(b)
    ensures a == b
  {
    SlashesRestored(a);
    SlashesRestored(b);
    DotsRestored(a);
    DotsRestored(b);
  }

  lemma PercentCollides()
    ensures EncodeSubject(".") == EncodeSubject("%2E")
  {
    EncodeSubjectByChar(".");
    EncodeSubjectByChar("%2E");
    EncodeSubjectByChar("2E");
    EncodeSubjectByChar("E");
    assert "%2E"[1..] == "2E" && "2E"[1..] == "E" && "E"[1..] == "" && "."[1..] == "";
  }

  predicate EscapeAt(s: string, i: int) {
    0 <= i && i + 3 <= |s| && s[i..i + 3] == DOT_ESCAPE
  }

  predicate ContainsEscape(s: string) {
    exists i :: 0 <= i < |s| && EscapeAt(s, i)
  }

  function DotsEscaped(name: string): string { ReplaceAll(name, ".", DOT_ESCAPE) }

  lemma {:induction false} DotsEscapedJoins(x: string, y: string)
    ensures DotsEscaped(x + y) == DotsEscaped(x) + DotsEscaped(y)
  {
    if x == "" {
      assert x + y == y;
    } else {
      assert (x + y)[1..] == x[1..] + y;
      DotsEscapedJoins(x[1..], y);
      assert "." <= x + y <==> "." <= x;
    }
  }

  lemma {:induction false} NothingToEscape(name: string)
    requires '.' !in name
    ensures DotsEscaped(name) == name
  {
    if name != "" {
      NothingToEscape(name[1..]);
      assert name[0] in name && name == [name[0]] + name[1..];
      assert DotsEscaped(name) == [name[0]] + DotsEscaped(name[1..]);
    }
  }

  /** A subject without escapes comes from a name without dots. */
  lemma EscapesShow(name: string)
    requires '.' in name
    ensures ContainsEscape(DotsEscaped(name))
  {
    var i :| 0 <= i < |name| && name[i] == '.';
    SplitAt(name, i, ".");
    var front := DotsEscaped(name[..i]);
    assert DotsEscaped(".") == DOT_ESCAPE by { assert ReplaceAll("", ".", DOT_ESCAPE) == ""; }
    assert EscapeAt(DotsEscaped(name), |front|);
  }

  lemma SplitAt(name: string, i: nat, middle: string)
    requires i + |middle| <= |name| && name[i..i + |middle|] == middle
    ensures name == name[..i] + middle + name[i + |middle|..]
    ensures DotsEscaped(name) == DotsEscaped(name[..i]) + DotsEscaped(middle) + DotsEscaped(name[i + |middle|..])
  {
    assert name == name[..i] + middle + name[i + |middle|..];
    DotsEscapedJoins(name[..i] + middle, name[i + |middle|..]);
    DotsEscapedJoins(name[..i], middle);
  }

  /** Putting a dot for an escape, or an escape for a dot, does not change the subject. */
  lemma SwapKeepsSubject(name: string, i: nat, middle: string, other: string)
    requires i + |middle| <= |name| && name[i..i + |middle|] == middle
    requires DotsEscaped(middle) == DotsEscaped(other)
    ensures EncodeSubject(name[..i] + other + name[i + |middle|..]) == EncodeSubject(name)
  {
    var swapped := name[..i] + other + name[i + |middle|..];
    SplitAt(name, i, middle);
    SplitAt(swapped, i, other);
  }

  /** Two names share a subject exactly if their dots, once escaped, leave the same text. */
  lemma SameSubjectSameEscapes(a: string, b: string)
    ensures EncodeSubject(a) == EncodeSubject(b) <==> DotsEscaped(a) == DotsEscaped(b)
  {
    SlashesRestored(a);
    SlashesRestored(b);
  }

  /** Exactly which names collide: those with a dot or with the text of its escape. */
  lemma CollidesIff(a: string)
    ensures (exists b :: b != a && EncodeSubject(b) == EncodeSubject(a)) <==> '.' in a || ContainsEscape(a)
  {
    hide ReplaceAll;
    assert DotsEscaped(".") == DotsEscaped(DOT_ESCAPE) by { DotAndEscape(); }
    if '.' in a {
      var i :| 0 <= i < |a| && a[i] == '.';
      SwapKeepsSubject(a, i, ".", DOT_ESCAPE);
      assert |a[..i] + DOT_ESCAPE + a[i + 1..]| == |a| + 2;
    } else if ContainsEscape(a) {
      var i :| 0 <= i < |a| && EscapeAt(a, i);
      SwapKeepsSubject(a, i, DOT_ESCAPE, ".");
      assert |a[..i] + "." + a[i + 3..]| == |a| - 2;
    } else {
      forall b | EncodeSubject(b) == EncodeSubject(a) ensures b == a {
        SameSubjectSameEscapes(a, b);
        NothingToEscape(a);
        if '.' in b { EscapesShow(b); } else { NothingToEscape(b); }
      }
    }
  }

  lemma DotAndEscape()
    ensures DotsEscaped(".") == DotsEscaped(DOT_ESCAPE)
  {
    NothingToEscape(DOT_ESCAPE);
    ReplaceMatches("", ".", DOT_ESCAPE);
    ReplaceNothing(".", DOT_ESCAPE);
  }

  // ---- the encodings, letter by letter -------------------------------------

  /** Both encodings work letter by letter, whatever stands around a letter ... */
  lemma {:induction false} EncodingsJoin(x: string, y: string)
    ensures StreamOf(x + y) == StreamOf(x) + StreamOf(y)
    ensures EncodeSubject(x + y) == EncodeSubject(x) + EncodeSubject(y)
  {
    hide SubjectChar;
    if x == "" {
      assert x + y == y;
      assert EncodeSubject("") == "" by { ReplaceNothing(".", DOT_ESCAPE); ReplaceNothing("/", "."); }
    } else {
      assert (x + y)[1..] == x[1..] + y;
      EncodingsJoin(x[1..], y);
      EncodeSubjectByChar(x);
      EncodeSubjectByChar(x + y);
    }
  }

  /** ... and these are the letters, so the two together say what every name becomes. */
  lemma EncodedLetters(c: char)
    ensures StreamOf("") == EncodeSubject("") == ""
    ensures StreamOf("_") == "_u" && StreamOf(".") == "_d" && StreamOf("/") == "_s"
    ensures c != '_' && c != '.' && c != '/' ==> StreamOf([c]) == [c]
    ensures EncodeSubject(".") == "%2E" && EncodeSubject("/") == "."
    ensures c != '.' && c != '/' ==> EncodeSubject([c]) == [c]
  {
    StreamOfEmpty();
    assert forall d: char :: StreamOf([d]) == EncodeChar(d) + StreamOf([d][1..]);
    assert EncodeSubject("") == "" by { ReplaceNothing(".", DOT_ESCAPE); ReplaceNothing("/", "."); }
    EncodeSubjectByChar(".");
    EncodeSubjectByChar("/");
    EncodeSubjectByChar([c]);
  }

  /** A valid name becomes one token of lower-case letters, digits, '_' and '-', and a subject without '/'. */
  lemma {:induction false} EncodingsAreSafe(name: string)
    requires forall i :: 0 <= i < |name| ==> NameChar(name[i])
    ensures forall i :: 0 <= i < |StreamOf(name)| ==>
              var c := StreamOf(name)[i]; 'a' <= c <= 'z' || '0' <= c <= '9' || c == '_' || c == '-'
    ensures '/' !in EncodeSubject(name)
  {
    if name == "" {
      EncodedLetters('a');
    } else {
      EncodingsAreSafe(name[1..]);
      EncodingsJoin([name[0]], name[1..]);
      assert name == [name[0]] + name[1..];
      EncodedLetters(name[0]);
    }
  }
}
