/** Where the ordered index keeps its messages: one stream per namespace, a counter
    subject per ordering scope, a record subject per identity. The identity hash is a
    parameter, assumed only to be collision-free and to emit no '.'. */
module SubjectSpace {
  import opened Storage
  import opened NameCodec

  const ROOT := "OI"
  const IDENTITY_DOMAIN := "looprig.natsstore.ordered.identity.v1"

  type Hash = string -> string

  ghost predicate Sound(hash: Hash) {
    && (forall a, b :: hash(a) == hash(b) ==> a == b)
    && (forall a :: '.' !in hash(a))
  }

  /** The assumption can be met: the stream encoding is such a hash. */
  lemma SoundIsPossible()
    ensures exists hash :: Sound(hash)
  {
    forall a, b | StreamOf(a) == StreamOf(b) ensures a == b { StreamOfIsInjective(a, b); }
    forall a ensures '.' !in StreamOf(a) { StreamOfHasNoDots(a); }
    assert Sound(StreamOf);
  }

  // ---- the identity preimage -----------------------------------------------

  /** n as width big-endian bytes. */
  function BigEndian(n: nat, width: nat): string {
    if width == 0 then "" else BigEndian(n / 256, width - 1) + [(n % 256) as char]
  }

  function Framed(part: string): string {
    BigEndian(|part|, 8) + part
  }

  function FramedAll(parts: seq<string>): string {
    if parts == [] then "" else Framed(parts[0]) + FramedAll(parts[1..])
  }

  function Preimage(namespace: string, id: Identity): string {
    IDENTITY_DOMAIN + FramedAll([namespace, id.orderingScope, id.stableKey])
  }

  /** A Go string's length is an int. */
  ghost predicate GoString(s: string) { |s| <= 0x7FFF_FFFF_FFFF_FFFF }

  function Pow256(k: nat): nat {
    if k == 0 then 1 else 256 * Pow256(k - 1)
  }

  lemma {:induction false} BigEndianInjective(a: nat, b: nat, width: nat)
    requires a < Pow256(width) && b < Pow256(width) && BigEndian(a, width) == BigEndian(b, width)
    ensures a == b
  {
    if width > 0 {
      var x, y := BigEndian(a, width), BigEndian(b, width);
      assert x[|x| - 1] == y[|y| - 1] && x[..|x| - 1] == BigEndian(a / 256, width - 1) && y[..|y| - 1] == BigEndian(b / 256, width - 1);
      assert x[|x| - 1] == (a % 256) as char && y[|y| - 1] == (b % 256) as char;
      BigEndianInjective(a / 256, b / 256, width - 1);
    }
  }

  lemma {:induction false} BigEndianLength(n: nat, width: nat)
    ensures |BigEndian(n, width)| == width
  {
    if width > 0 { BigEndianLength(n / 256, width - 1); }
  }

  lemma EightBytesHoldAnyLength()
    ensures Pow256(8) == 0x1_0000_0000_0000_0000
  {
  }

  lemma FramedSplits(a: string, x: string, b: string, y: string)
    requires GoString(a) && GoString(b) && Framed(a) + x == Framed(b) + y
    ensures a == b && x == y
  {
    hide BigEndian, Pow256;
    BigEndianLength(|a|, 8);
    BigEndianLength(|b|, 8);
    var s, t := Framed(a) + x, Framed(b) + y;
    assert s[..8] == BigEndian(|a|, 8) && t[..8] == BigEndian(|b|, 8);
    EightBytesHoldAnyLength();
    BigEndianInjective(|a|, |b|, 8);
    assert s[8..][..|a|] == a && t[8..][..|b|] == b;
    assert s[8..][|a|..] == x && t[8..][|b|..] == y;
  }

  /** No two lists of components, of whatever length, share a framing that starts the same way. */
  lemma {:induction false} FramedAllInjective(a: seq<string>, b: seq<string>)
    requires |a| == |b| && FramedAll(a) == FramedAll(b)
    requires (forall i :: 0 <= i < |a| ==> GoString(a[i])) && (forall i :: 0 <= i < |b| ==> GoString(b[i]))
    ensures a == b
  {
    if a != [] {
      FramedSplits(a[0], FramedAll(a[1..]), b[0], FramedAll(b[1..]));
      FramedAllInjective(a[1..], b[1..]);
      assert a == [a[0]] + a[1..] && b == [b[0]] + b[1..];
    }
  }

  lemma PreimageInjective(ns1: string, id1: Identity, ns2: string, id2: Identity)
    requires GoString(ns1) && GoString(id1.orderingScope) && GoString(id1.stableKey)
    requires GoString(ns2) && GoString(id2.orderingScope) && GoString(id2.stableKey)
    requires Preimage(ns1, id1) == Preimage(ns2, id2)
    ensures ns1 == ns2 && id1 == id2
  {
    var a, b := [ns1, id1.orderingScope, id1.stableKey], [ns2, id2.orderingScope, id2.stableKey];
    assert Preimage(ns1, id1)[|IDENTITY_DOMAIN|..] == FramedAll(a);
    assert Preimage(ns2, id2)[|IDENTITY_DOMAIN|..] == FramedAll(b);
    FramedAllInjective(a, b);
    assert a[0] == ns1 && a[1] == id1.orderingScope && a[2] == id1.stableKey;
  }

  lemma FramedStep(written: string, parts: seq<string>, i: nat)
    requires i < |parts|
    ensures written + FramedAll(parts[i..]) == written + BigEndian(|parts[i]|, 8) + parts[i] + FramedAll(parts[i + 1..])
  {
    hide BigEndian;
    assert parts[i..][0] == parts[i] && parts[i..][1..] == parts[i + 1..];
    assert FramedAll(parts[i..]) == Framed(parts[i]) + FramedAll(parts[i + 1..]);
  }

  /** Feeds the hash component by component. */
  method IdentityToken(hash: Hash, namespace: string, id: Identity) returns (token: string)
    ensures token == hash(Preimage(namespace, id))
  {
    hide BigEndian, Framed;
    var written := IDENTITY_DOMAIN;
    var parts := [namespace, id.orderingScope, id.stableKey];
    var i := 0;
    assert parts[0..] == parts;
    while i < |parts|
      invariant i <= |parts|
      invariant written + FramedAll(parts[i..]) == IDENTITY_DOMAIN + FramedAll(parts)
    {
      FramedStep(written, parts, i);
      written := written + BigEndian(|parts[i]|, 8);
      written := written + parts[i];
      i := i + 1;
    }
    assert written + FramedAll(parts[|parts|..]) == written;
    token := hash(written);
  }

  // ---- subjects ------------------------------------------------------------

  function NamespacePrefix(namespace: string): string {
    ROOT + "." + StreamOf(namespace)
  }

  function CounterSubjectOf(namespace: string, orderingScope: string): string {
    NamespacePrefix(namespace) + ".c." + StreamOf(orderingScope)
  }

  function RecordSubjectOf(hash: Hash, namespace: string, id: Identity): string {
    NamespacePrefix(namespace) + ".r." + StreamOf(id.orderingScope) + "." + hash(Preimage(namespace, id))
  }

  datatype Family = ForeignFamily | CounterFamily | RecordFamily

  /** The length of s up to its first '.', or of all of it. */
  function FirstDot(s: string): (n: nat)
    ensures n <= |s|
  {
    if s == "" || s[0] == '.' then 0 else 1 + FirstDot(s[1..])
  }

  function Classify(namespace: string, subject: string): Family {
    var prefix := NamespacePrefix(namespace) + ".";
    if !(prefix <= subject) then ForeignFamily
    else
      var rest := subject[|prefix|..];
      var n := FirstDot(rest);
      if n == |rest| then ForeignFamily
      else if rest[..n] == "c" then CounterFamily
      else if rest[..n] == "r" then RecordFamily
      else ForeignFamily
  }

  lemma {:induction false} FirstDotOf(token: string, rest: string)
    requires '.' !in token
    ensures FirstDot(token + "." + rest) == |token|
  {
    var s := token + "." + rest;
    if token != "" {
      assert s[1..] == token[1..] + "." + rest;
      FirstDotOf(token[1..], rest);
    }
  }

  /** A token without dots, ended by one, can be read off unambiguously. */
  lemma TokenSplits(a: string, x: string, b: string, y: string)
    requires '.' !in a && '.' !in b && a + "." + x == b + "." + y
    ensures a == b && x == y
  {
    var s, t := a + "." + x, b + "." + y;
    FirstDotOf(a, x);
    FirstDotOf(b, y);
    assert s[..|a|] == a && t[..|b|] == b && s[|a| + 1..] == x && t[|b| + 1..] == y;
  }

  /** Every subject this layout emits, in one shape: root, namespace, family letter, and the rest. */
  function InFamily(namespace: string, family: string, rest: string): string {
    ROOT + "." + (StreamOf(namespace) + "." + (family + "." + rest))
  }

  lemma Reassociated(n: string, scope: string, h: string)
    ensures ROOT + "." + n + ".c." + scope == ROOT + "." + (n + "." + ("c" + "." + scope))
    ensures ROOT + "." + n + ".r." + scope + "." + h == ROOT + "." + (n + "." + ("r" + "." + (scope + "." + h)))
  {
  }

  lemma Shapes(hash: Hash, namespace: string, id: Identity)
    ensures CounterSubjectOf(namespace, id.orderingScope) == InFamily(namespace, "c", StreamOf(id.orderingScope))
    ensures RecordSubjectOf(hash, namespace, id) ==
            InFamily(namespace, "r", StreamOf(id.orderingScope) + "." + hash(Preimage(namespace, id)))
  {
    hide StreamOf, Preimage;
    Reassociated(StreamOf(namespace), StreamOf(id.orderingScope), hash(Preimage(namespace, id)));
  }

  lemma InFamilySplits(ns1: string, f1: string, r1: string, ns2: string, f2: string, r2: string)
    requires '.' !in f1 && '.' !in f2 && InFamily(ns1, f1, r1) == InFamily(ns2, f2, r2)
    ensures ns1 == ns2 && f1 == f2 && r1 == r2
  {
    StreamOfHasNoDots(ns1);
    StreamOfHasNoDots(ns2);
    TokenSplits(ROOT, StreamOf(ns1) + "." + (f1 + "." + r1), ROOT, StreamOf(ns2) + "." + (f2 + "." + r2));
    TokenSplits(StreamOf(ns1), f1 + "." + r1, StreamOf(ns2), f2 + "." + r2);
    TokenSplits(f1, r1, f2, r2);
    StreamOfIsInjective(ns1, ns2);
  }

  /** Distinct scopes and identities, in whatever namespaces, have distinct subjects; a counter never
      shares a subject with a record. */
  lemma SubjectsAreDistinct(hash: Hash, ns1: string, id1: Identity, ns2: string, id2: Identity)
    requires Sound(hash)
    requires GoString(ns1) && GoString(id1.orderingScope) && GoString(id1.stableKey)
    requires GoString(ns2) && GoString(id2.orderingScope) && GoString(id2.stableKey)
    ensures RecordSubjectOf(hash, ns1, id1) == RecordSubjectOf(hash, ns2, id2) ==> ns1 == ns2 && id1 == id2
    ensures CounterSubjectOf(ns1, id1.orderingScope) == CounterSubjectOf(ns2, id2.orderingScope) ==>
              ns1 == ns2 && id1.orderingScope == id2.orderingScope
    ensures CounterSubjectOf(ns1, id1.orderingScope) != RecordSubjectOf(hash, ns2, id2)
  {
    Shapes(hash, ns1, id1);
    Shapes(hash, ns2, id2);
    var s1, s2 := StreamOf(id1.orderingScope), StreamOf(id2.orderingScope);
    var h1, h2 := hash(Preimage(ns1, id1)), hash(Preimage(ns2, id2));
    if RecordSubjectOf(hash, ns1, id1) == RecordSubjectOf(hash, ns2, id2) {
      InFamilySplits(ns1, "r", s1 + "." + h1, ns2, "r", s2 + "." + h2);
      StreamOfHasNoDots(id1.orderingScope);
      StreamOfHasNoDots(id2.orderingScope);
      TokenSplits(s1, h1, s2, h2);
      PreimageInjective(ns1, id1, ns2, id2);
    }
    if CounterSubjectOf(ns1, id1.orderingScope) == CounterSubjectOf(ns2, id2.orderingScope) {
      InFamilySplits(ns1, "c", s1, ns2, "c", s2);
      StreamOfIsInjective(id1.orderingScope, id2.orderingScope);
    }
    if CounterSubjectOf(ns1, id1.orderingScope) == RecordSubjectOf(hash, ns2, id2) {
      InFamilySplits(ns1, "c", s1, ns2, "r", s2 + "." + h2);
    }
  }

  lemma ClassifyShape(namespace: string, family: string, rest: string, viewer: string)
    requires '.' !in family
    ensures Classify(viewer, InFamily(namespace, family, rest)) ==
            if viewer != namespace then ForeignFamily
            else if family == "c" then CounterFamily
            else if family == "r" then RecordFamily
            else ForeignFamily
  {
    hide StreamOf, FirstDot;
    var subject, prefix := InFamily(namespace, family, rest), NamespacePrefix(viewer) + ".";
    StreamOfHasNoDots(namespace);
    StreamOfHasNoDots(viewer);
    var body := StreamOf(namespace) + "." + (family + "." + rest);
    assert viewer == namespace ==> subject == prefix + (family + "." + rest);
    if prefix <= subject {
      var tail := subject[|prefix|..];
      assert subject == prefix + tail;
      assert prefix + tail == ROOT + "." + (StreamOf(viewer) + "." + tail);
      TokenSplits(ROOT, body, ROOT, StreamOf(viewer) + "." + tail);
      TokenSplits(StreamOf(namespace), family + "." + rest, StreamOf(viewer), tail);
      StreamOfIsInjective(namespace, viewer);
      FirstDotOf(family, rest);
      assert tail[..|family|] == family;
    }
  }

  lemma FamilyTail(viewer: string, subject: string, family: string)
    requires Classify(viewer, subject) == (if family == "c" then CounterFamily else RecordFamily)
    requires family == "c" || family == "r"
    ensures exists rest :: subject == InFamily(viewer, family, rest)
  {
    hide StreamOf, FirstDot;
    var prefix := NamespacePrefix(viewer) + ".";
    var rest := subject[|prefix|..];
    var n := FirstDot(rest);
    FirstDotIsDot(rest);
    assert rest == family + "." + rest[n + 1..];
    assert subject == prefix + rest;
    Nested(StreamOf(viewer), family + "." + rest[n + 1..]);
    assert subject == InFamily(viewer, family, rest[n + 1..]);
  }

  lemma Nested(stream: string, tail: string)
    ensures ROOT + "." + stream + "." + tail == ROOT + "." + (stream + "." + tail)
  {
  }

  lemma {:induction false} FirstDotIsDot(s: string)
    ensures FirstDot(s) < |s| ==> s[FirstDot(s)] == '.'
  {
    if s != "" && s[0] != '.' { FirstDotIsDot(s[1..]); }
  }

  /** Exactly which subjects belong to which family, whatever follows the family's letter. */
  lemma FamilyIff(viewer: string, subject: string)
    ensures Classify(viewer, subject) == CounterFamily <==> exists rest :: subject == InFamily(viewer, "c", rest)
    ensures Classify(viewer, subject) == RecordFamily <==> exists rest :: subject == InFamily(viewer, "r", rest)
  {
    hide Classify;
    if Classify(viewer, subject) == CounterFamily { FamilyTail(viewer, subject, "c"); }
    if Classify(viewer, subject) == RecordFamily { FamilyTail(viewer, subject, "r"); }
    forall rest | subject == InFamily(viewer, "c", rest) ensures Classify(viewer, subject) == CounterFamily {
      ClassifyShape(viewer, "c", rest, viewer);
    }
    forall rest | subject == InFamily(viewer, "r", rest) ensures Classify(viewer, subject) == RecordFamily {
      ClassifyShape(viewer, "r", rest, viewer);
    }
  }

  /** A view recognizes every subject of its own namespace, and takes every other namespace's for foreign. */
  lemma ClassifiesEverySubject(hash: Hash, namespace: string, id: Identity, viewer: string)
    ensures Classify(viewer, CounterSubjectOf(namespace, id.orderingScope)) ==
            if viewer == namespace then CounterFamily else ForeignFamily
    ensures Classify(viewer, RecordSubjectOf(hash, namespace, id)) ==
            if viewer == namespace then RecordFamily else ForeignFamily
  {
    Shapes(hash, namespace, id);
    ClassifyShape(namespace, "c", StreamOf(id.orderingScope), viewer);
    ClassifyShape(namespace, "r", StreamOf(id.orderingScope) + "." + hash(Preimage(namespace, id)), viewer);
  }

  /** No ledger subject or stream name is an ordered one: valid names are lower-case, the root is not. */
  lemma DisjointFromLedger(name: string, namespace: string, rest: string)
    requires ValidName(name)
    ensures EncodeSubject(name) != NamespacePrefix(namespace) + rest
    ensures StreamOf(name) != ROOT + "_" + rest
  {
    EncodeSubjectByChar(name);
    assert EncodeSubject(name)[0] == name[0] && StreamOf(name)[0] == name[0];
    assert (NamespacePrefix(namespace) + rest)[0] == 'O' && (ROOT + "_" + rest)[0] == 'O';
  }

  // ---- the text on the wire ------------------------------------------------

  /** The number that bytes stand for, the most significant first. */
  function Weight(bytes: string): nat {
    if bytes == "" then 0 else 256 * Weight(bytes[..|bytes| - 1]) + bytes[|bytes| - 1] as int
  }

  lemma {:induction false} BigEndianWeighs(n: nat, width: nat)
    requires n < Pow256(width)
    ensures |BigEndian(n, width)| == width && Weight(BigEndian(n, width)) == n
  {
    if width > 0 {
      BigEndianWeighs(n / 256, width - 1);
      var front := BigEndian(n / 256, width - 1);
      assert BigEndian(n, width)[..width - 1] == front;
    }
  }

  /** The subjects, spelled out. */
  lemma SubjectText(hash: Hash, namespace: string, id: Identity)
    ensures CounterSubjectOf(namespace, id.orderingScope) == "OI." + StreamOf(namespace) + ".c." + StreamOf(id.orderingScope)
    ensures RecordSubjectOf(hash, namespace, id) ==
            "OI." + StreamOf(namespace) + ".r." + StreamOf(id.orderingScope) + "." + hash(Preimage(namespace, id))
  {
    hide StreamOf, Preimage;
    assert "OI" + "." == "OI.";
  }

  lemma FramedThree(a: string, b: string, c: string)
    ensures FramedAll([a, b, c]) == Framed(a) + (Framed(b) + (Framed(c) + ""))
  {
    hide Framed;
    assert [a, b, c][1..] == [b, c] && [b, c][1..] == [c] && [c][1..] == [];
    assert FramedAll([c]) == Framed(c) + FramedAll([]);
    assert FramedAll([b, c]) == Framed(b) + FramedAll([c]);
    assert FramedAll([a, b, c]) == Framed(a) + FramedAll([b, c]);
  }

  /** And the hashed text: the domain, then each component behind its length in eight bytes. */
  lemma PreimageText(namespace: string, id: Identity)
    ensures Preimage(namespace, id) ==
            "looprig.natsstore.ordered.identity.v1"
            + (BigEndian(|namespace|, 8) + namespace)
            + (BigEndian(|id.orderingScope|, 8) + id.orderingScope)
            + (BigEndian(|id.stableKey|, 8) + id.stableKey)
  {
    hide BigEndian, FramedAll;
    FramedThree(namespace, id.orderingScope, id.stableKey);
    Regrouped(IDENTITY_DOMAIN, Framed(namespace), Framed(id.orderingScope), Framed(id.stableKey));
  }

  lemma Regrouped(w: string, x: string, y: string, z: string)
    ensures w + (x + (y + (z + ""))) == w + x + y + z
  {
  }
}
