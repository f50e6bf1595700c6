/**
 The release tag recogniser against the grammar of sections 2, 9 and 10 of Semantic Versioning 2.0.0:
 a tag is "v", three numeric identifiers, and optional pre-release and build identifiers.
 */
module ReleaseTag {
  import opened Base

  // ---------------------------------------------------------------- the grammar

  datatype Version = Version(core: seq<string>, pre: Option<seq<string>>, build: Option<seq<string>>)

  predicate Digit(c: char) { '0' <= c <= '9' }

  predicate IdentifierChar(c: char) { Digit(c) || 'a' <= c <= 'z' || 'A' <= c <= 'Z' || c == '-' }

  predicate AllDigits(s: string) { forall i :: 0 <= i < |s| ==> Digit(s[i]) }

  predicate NoLeadingZero(s: string) { |s| > 1 ==> s[0] != '0' }

  predicate NumericId(s: string) { s != "" && AllDigits(s) && NoLeadingZero(s) }

  predicate BuildId(s: string) { s != "" && forall i :: 0 <= i < |s| ==> IdentifierChar(s[i]) }

  predicate PreId(s: string) { BuildId(s) && (AllDigits(s) ==> NoLeadingZero(s)) }

  predicate Identifier(s: string, pre: bool) { if pre then PreId(s) else BuildId(s) }

  predicate Identifiers(parts: seq<string>, pre: bool) {
    parts != [] && forall i :: 0 <= i < |parts| ==> Identifier(parts[i], pre)
  }

  predicate WellFormed(v: Version) {
    && |v.core| == 3 && (forall i :: 0 <= i < 3 ==> NumericId(v.core[i]))
    && (v.pre.Some? ==> Identifiers(v.pre.value, true))
    && (v.build.Some? ==> Identifiers(v.build.value, false))
  }

  /** A version's three stretches of text, before their dots are looked at. */
  datatype Pieces = Pieces(core: string, pre: Option<string>, build: Option<string>)

  function JoinAll(parts: Option<seq<string>>): Option<string> {
    if parts.Some? then Some(Join(parts.value, '.')) else None
  }

  function Marked(mark: char, text: Option<string>): string {
    if text.Some? then [mark] + text.value else ""
  }

  function Glue(p: Pieces): string { p.core + Marked('-', p.pre) + Marked('+', p.build) }

  function ToPieces(v: Version): Pieces { Pieces(Join(v.core, '.'), JoinAll(v.pre), JoinAll(v.build)) }

  function Print(v: Version): string { "v" + Glue(ToPieces(v)) }

  // ---------------------------------------------------------------- cutting and splitting

  /** `strings.Cut`: what precedes the first `c`, and what follows it if there is one. */
  function Cut(s: string, c: char): (string, Option<string>) {
    var i := Find(s, c);
    (s[..i], if i < |s| then Some(s[i + 1..]) else None)
  }

  lemma CutAt(a: string, c: char, b: string)
    requires c !in a
    ensures Cut(a + [c] + b, c) == (a, Some(b)) && Cut(a, c) == (a, None)
  {
    FindAt(a, c, b);
    assert (a + [c] + b)[..|a|] == a && a[..|a|] == a;
    assert (a + [c] + b)[|a| + 1..] == b;
  }

  lemma MarkedText(a: string, c: char, b: Option<string>)
    ensures a + Marked(c, b) == if b.Some? then a + [c] + b.value else a
  {
  }

  lemma CutMarked(a: string, c: char, b: Option<string>)
    requires c !in a
    ensures Cut(a + Marked(c, b), c) == (a, b)
  {
    MarkedText(a, c, b);
    CutAt(a, c, if b.Some? then b.value else "");
  }

  lemma CutRejoins(s: string, c: char)
    ensures c !in Cut(s, c).0 && s == Cut(s, c).0 + Marked(c, Cut(s, c).1)
  {
    var i := Find(s, c);
    MarkedText(s[..i], c, Cut(s, c).1);
  }

  // ---------------------------------------------------------------- the decomposition

  /** Cut at the first "+", then at the first "-". */
  function Cuts(version: string): Pieces {
    var (coreAndPre, build) := Cut(version, '+');
    var (core, pre) := Cut(coreAndPre, '-');
    Pieces(core, pre, build)
  }

  predicate Clean(p: Pieces) {
    '-' !in p.core && '+' !in p.core && (p.pre.Some? ==> '+' !in p.pre.value)
  }

  lemma CutsGlue(p: Pieces)
    requires Clean(p)
    ensures Cuts(Glue(p)) == p
  {
    CutMarked(p.core + Marked('-', p.pre), '+', p.build);
    CutMarked(p.core, '-', p.pre);
  }

  lemma GlueCuts(version: string)
    ensures Glue(Cuts(version)) == version
  {
    CutRejoins(version, '+');
    CutRejoins(Cut(version, '+').0, '-');
  }

  function SplitAll(text: Option<string>): Option<seq<string>> {
    if text.Some? then Some(Split(text.value, '.')) else None
  }

  function FromPieces(p: Pieces): Version { Version(Split(p.core, '.'), SplitAll(p.pre), SplitAll(p.build)) }

  /** The decomposition the recogniser makes, if it accepts the tag. */
  function Decompose(tag: string): Option<Version> {
    if tag == "" || tag[0] != 'v' then None
    else
      var v := FromPieces(Cuts(tag[1..]));
      if WellFormed(v) then Some(v) else None
  }

  lemma IdentifiersSplit(parts: seq<string>, pre: bool)
    requires Identifiers(parts, pre)
    ensures Split(Join(parts, '.'), '.') == parts && '+' !in Join(parts, '.')
  {
    SplitJoin(parts, '.');
    JoinChars(parts, '.', '+');
  }

  lemma CoreSplit(core: seq<string>)
    requires |core| == 3 && forall i :: 0 <= i < 3 ==> NumericId(core[i])
    ensures Split(Join(core, '.'), '.') == core && '+' !in Join(core, '.') && '-' !in Join(core, '.')
  {
    SplitJoin(core, '.');
    JoinChars(core, '.', '+');
    JoinChars(core, '.', '-');
  }

  lemma PiecesRoundTrip(v: Version)
    requires WellFormed(v)
    ensures FromPieces(ToPieces(v)) == v && Clean(ToPieces(v))
  {
    CoreSplit(v.core);
    if v.pre.Some? {
      IdentifiersSplit(v.pre.value, true);
    }
    if v.build.Some? {
      IdentifiersSplit(v.build.value, false);
    }
  }

  /** Printing a version and decomposing it gives the version back. */
  lemma DecomposePrint(v: Version)
    requires WellFormed(v)
    ensures Decompose(Print(v)) == Some(v)
  {
    PiecesRoundTrip(v);
    CutsGlue(ToPieces(v));
    assert Print(v)[1..] == Glue(ToPieces(v));
  }

  lemma PiecesBack(p: Pieces)
    ensures ToPieces(FromPieces(p)) == p
  {
    JoinSplit(p.core, '.');
    if p.pre.Some? {
      JoinSplit(p.pre.value, '.');
    }
    if p.build.Some? {
      JoinSplit(p.build.value, '.');
    }
  }

  lemma PrintCuts(version: string)
    ensures Print(FromPieces(Cuts(version))) == "v" + version
  {
    PiecesBack(Cuts(version));
    GlueCuts(version);
  }

  /** Whatever decomposes is the printed form of its decomposition. */
  lemma PrintDecompose(tag: string)
    requires Decompose(tag).Some?
    ensures WellFormed(Decompose(tag).value) && Print(Decompose(tag).value) == tag
  {
    PrintCuts(tag[1..]);
    assert tag == "v" + tag[1..];
  }

  /** A tag is a version in exactly one way. */
  lemma UniqueDecomposition(v: Version, w: Version)
    requires WellFormed(v) && WellFormed(w) && Print(v) == Print(w)
    ensures v == w
  {
    DecomposePrint(v);
    DecomposePrint(w);
  }

  // ---------------------------------------------------------------- the recogniser

  method ValidIdentifiers(value: string, noNumericLeadingZero: bool) returns (ok: bool)
    ensures ok <==> Identifiers(Split(value, '.'), noNumericLeadingZero)
  {
    JoinSplit(value, '.');
    var parts := Split(value, '.');
    var k := 0;
    while k < |parts|
      invariant 0 <= k <= |parts|
      invariant forall i :: 0 <= i < k ==> Identifier(parts[i], noNumericLeadingZero)
    {
      var valid, numeric := ScanIdentifier(parts[k]);
      if !valid || (noNumericLeadingZero && numeric && |parts[k]| > 1 && parts[k][0] == '0') {
        assert !Identifier(parts[k], noNumericLeadingZero);
        return false;
      }
      k := k + 1;
    }
    ok := true;
  }

  method ScanIdentifier(identifier: string) returns (valid: bool, numeric: bool)
    ensures valid <==> BuildId(identifier)
    ensures valid ==> (numeric <==> AllDigits(identifier))
  {
    if identifier == "" {
      return false, true;
    }
    numeric := true;
    var i := 0;
    while i < |identifier|
      invariant 0 <= i <= |identifier|
      invariant forall j :: 0 <= j < i ==> IdentifierChar(identifier[j])
      invariant numeric <==> forall j :: 0 <= j < i ==> Digit(identifier[j])
    {
      var c := identifier[i];
      if c < '0' || c > '9' {
        numeric := false;
        if (c < 'a' || c > 'z') && (c < 'A' || c > 'Z') && c != '-' {
          return false, numeric;
        }
      }
      i := i + 1;
    }
    valid := true;
  }

  method ValidNumber(number: string) returns (ok: bool)
    ensures ok <==> NumericId(number)
  {
    if number == "" || (|number| > 1 && number[0] == '0') {
      return false;
    }
    var i := 0;
    while i < |number|
      invariant 0 <= i <= |number|
      invariant forall j :: 0 <= j < i ==> Digit(number[j])
    {
      if number[i] < '0' || number[i] > '9' {
        return false;
      }
      i := i + 1;
    }
    ok := true;
  }

  method ValidCore(core: string) returns (ok: bool)
    ensures ok <==> |Split(core, '.')| == 3 && forall i :: 0 <= i < 3 ==> NumericId(Split(core, '.')[i])
  {
    var numbers := Split(core, '.');
    if |numbers| != 3 {
      return false;
    }
    var k := 0;
    while k < |numbers|
      invariant 0 <= k <= |numbers|
      invariant forall i :: 0 <= i < k ==> NumericId(numbers[i])
    {
      var valid := ValidNumber(numbers[k]);
      if !valid {
        return false;
      }
      k := k + 1;
    }
    ok := true;
  }

  method ValidTag(tag: string) returns (ok: bool)
    ensures ok <==> Decompose(tag).Some?
  {
    if tag == "" || tag[0] != 'v' {
      return false;
    }
    var (coreAndPre, build) := Cut(tag[1..], '+');
    if build.Some? {
      var valid := ValidIdentifiers(build.value, false);
      if !valid {
        return false;
      }
    }
    var (core, pre) := Cut(coreAndPre, '-');
    if pre.Some? {
      var valid := ValidIdentifiers(pre.value, true);
      if !valid {
        return false;
      }
    }
    ok := ValidCore(core);
  }

  /** The recogniser accepts exactly the tags of the grammar, each with one decomposition. */
  lemma AcceptsExactlySemVer(tag: string)
    ensures Decompose(tag).Some? <==> exists v :: WellFormed(v) && Print(v) == tag
  {
    if Decompose(tag).Some? {
      PrintDecompose(tag);
    }
    forall v | WellFormed(v) && Print(v) == tag ensures Decompose(tag) == Some(v) {
      DecomposePrint(v);
    }
  }
}
