/**
 Encoding a message for a peer and decoding what a peer sent: attribute quoting, the attribute
 scanner, the envelope pattern, and the round trip between them.
 */
module Codec {
  import opened Base
  import opened Envelope

  // ---------------------------------------------------------------- HTML escaping

  function EscapeChar(c: char): string {
    if c == '&' then "&amp;"
    else if c == '\'' then "&#39;"
    else if c == '<' then "&lt;"
    else if c == '>' then "&gt;"
    else if c == '"' then "&#34;"
    else [c]
  }

  function Escape(s: string): string {
    if s == "" then "" else EscapeChar(s[0]) + Escape(s[1..])
  }

  /** The HTML entity table: the text an entity at the head stands for, and its length in the source. */
  type Entities = string -> Option<(string, nat)>

  /** The table knows the five entities that escaping produces, whatever follows them. */
  ghost predicate Standard(table: Entities) {
    forall c: char, rest: string :: EscapeChar(c) != [c] ==>
      table(EscapeChar(c) + rest) == Some(([c], |EscapeChar(c)|))
  }

  function Unescape(table: Entities, s: string): string
    decreases |s|
  {
    if s == "" then ""
    else if s[0] == '&' && table(s).Some? && 0 < table(s).value.1 <= |s|
    then table(s).value.0 + Unescape(table, s[table(s).value.1..])
    else [s[0]] + Unescape(table, s[1..])
  }

  lemma {:induction false} UnescapeEscape(table: Entities, s: string)
    requires Standard(table)
    ensures Unescape(table, Escape(s)) == s
  {
    if s != "" {
      var e, rest := EscapeChar(s[0]), Escape(s[1..]);
      UnescapeEscape(table, s[1..]);
      assert (e + rest)[|e|..] == rest;
      if e != [s[0]] {
        assert table(e + rest) == Some(([s[0]], |e|));
      }
    }
  }

  /** An escaped value cannot end its quotes or its element. */
  lemma {:induction false} EscapeIsQuotable(s: string)
    ensures '"' !in Escape(s) && '\'' !in Escape(s) && '>' !in Escape(s) && '<' !in Escape(s)
  {
    if s != "" {
      EscapeIsQuotable(s[1..]);
      assert '"' !in EscapeChar(s[0]) && '\'' !in EscapeChar(s[0]) && '>' !in EscapeChar(s[0]) && '<' !in EscapeChar(s[0]);
    }
  }

  // ---------------------------------------------------------------- attributes

  predicate WordChar(c: char) {
    '0' <= c <= '9' || 'a' <= c <= 'z' || 'A' <= c <= 'Z' || c == '_' || c == '-'
  }

  /** The length of the run of word characters at the head. */
  function WordLength(s: string): (n: nat)
    ensures n <= |s| && (n < |s| ==> !WordChar(s[n])) && forall i :: 0 <= i < n ==> WordChar(s[i])
  {
    if s == "" || !WordChar(s[0]) then 0 else 1 + WordLength(s[1..])
  }

  /** If the text starts with `name="value"`: the lengths of name and value. */
  function AttrAtHead(s: string): (r: Option<(nat, nat)>)
    ensures r.Some? ==> r.value.0 > 0 && r.value.0 + r.value.1 + 3 <= |s|
  {
    var n := WordLength(s);
    if n > 0 && n + 1 < |s| && s[n] == '=' && s[n + 1] == '"' then
      var q := Find(s[n + 2..], '"');
      if n + 2 + q < |s| then Some((n, q)) else None
    else None
  }

  /** The attribute at the head, and the text after it. */
  function HeadAttr(s: string): (r: Option<(string, string, string)>)
    ensures r.Some? ==> |r.value.2| < |s|
  {
    match AttrAtHead(s)
    case None => None
    case Some((n, q)) => Some((s[..n], s[n + 2..n + 2 + q], s[n + q + 3..]))
  }

  /** Every attribute in the text, from left to right: `FindAllStringSubmatch`. */
  function Attributes(s: string): seq<(string, string)>
    decreases |s|
  {
    if s == "" then []
    else
      match HeadAttr(s)
      case Some((name, value, rest)) => [(name, value)] + Attributes(rest)
      case None => Attributes(s[1..])
  }

  function Attr(name: string, value: string): string { name + "=\"" + value + "\"" }

  lemma WordStops(name: string, rest: string)
    requires (forall i :: 0 <= i < |name| ==> WordChar(name[i])) && rest != "" && !WordChar(rest[0])
    ensures WordLength(name + rest) == |name|
  {
    var s := name + rest;
    assert s[|name|] == rest[0];
    assert forall i :: 0 <= i < |name| ==> s[i] == name[i];
  }

  /** Where the parts of an attribute lie in a text that starts with it. */
  lemma AttrLayout(name: string, value: string, rest: string)
    ensures var s, n, q := Attr(name, value) + rest, |name|, |value|;
      && |s| == n + q + 3 + |rest| && s == name + ("=\"" + value + "\"" + rest)
      && s[..n] == name && s[n] == '=' && s[n + 1] == '"'
      && s[n + 2..] == value + ['"'] + rest && s[n + q + 3..] == rest
  {
  }

  lemma AttrFound(name: string, value: string, rest: string)
    requires name != "" && (forall i :: 0 <= i < |name| ==> WordChar(name[i])) && '"' !in value
    ensures HeadAttr(Attr(name, value) + rest) == Some((name, value, rest))
  {
    AttrLayout(name, value, rest);
    WordStops(name, "=\"" + value + "\"" + rest);
    FindAt(value, '"', rest);
    var s := Attr(name, value) + rest;
    assert s[|name| + 2..|name| + 2 + |value|] == value;
  }

  lemma ReadAttr(name: string, value: string, rest: string)
    requires name != "" && (forall i :: 0 <= i < |name| ==> WordChar(name[i])) && '"' !in value
    ensures Attributes(Attr(name, value) + rest) == [(name, value)] + Attributes(rest)
  {
    AttrFound(name, value, rest);
  }

  lemma SkipSpace(rest: string)
    ensures Attributes(" " + rest) == Attributes(rest)
  {
    assert (" " + rest)[1..] == rest;
    assert WordLength(" " + rest) == 0;
  }

  // ---------------------------------------------------------------- the envelope pattern

  predicate Space(c: char) { c == ' ' || c == '\t' || c == '\n' || c == '\r' || c == '\U{C}' }

  function SpaceLength(s: string): (n: nat)
    ensures n <= |s|
  {
    if s == "" || !Space(s[0]) then 0 else 1 + SpaceLength(s[1..])
  }

  /** The attribute text after the spaces; one character always remains for it. */
  function AttrText(inner: string): string
    requires inner != ""
  {
    var k := SpaceLength(inner);
    if k < |inner| then inner[k..] else inner[|inner| - 1..]
  }

  const ENDING := "\n" + CLOSING

  /** `envelopeRE`: the attribute text and the body, if the text is an envelope. */
  function Match(text: string): Option<(string, string)> {
    if !(OPEN <= text) then None
    else
      var rest := text[|OPEN|..];
      var g := Find(rest, '>');
      var tail := if g < |rest| then rest[g + 1..] else "";
      if 2 <= g && Space(rest[0]) && |tail| > |ENDING| && tail[0] == '\n' && tail[|tail| - |ENDING|..] == ENDING
      then Some((AttrText(rest[..g]), tail[1..|tail| - |ENDING|])) else None
  }

  function Built(inner: string, body: string): string { OPEN + (inner + ['>'] + ("\n" + body + ENDING)) }

  /** A text has the envelope's shape in at most one way, and the pattern finds that way. */
  lemma MatchBuilt(inner: string, body: string)
    requires '>' !in inner && |inner| >= 2 && Space(inner[0])
    ensures Match(Built(inner, body)) == Some((AttrText(inner), body))
  {
    var text := Built(inner, body);
    var rest := text[|OPEN|..];
    var tail := "\n" + body + ENDING;
    assert rest == inner + ['>'] + tail;
    FindAt(inner, '>', tail);
    assert rest[..|inner|] == inner && rest[|inner| + 1..] == tail;
    assert tail[|tail| - |ENDING|..] == ENDING && tail[1..|tail| - |ENDING|] == body;
  }

  lemma UniqueShape(inner: string, body: string, inner': string, body': string)
    requires '>' !in inner && '>' !in inner' && Built(inner, body) == Built(inner', body')
    ensures inner == inner' && body == body'
  {
    var rest := Built(inner, body)[|OPEN|..];
    var tail, tail' := "\n" + body + ENDING, "\n" + body' + ENDING;
    assert rest == inner + ['>'] + tail && rest == inner' + ['>'] + tail';
    FindAt(inner, '>', tail);
    FindAt(inner', '>', tail');
    assert inner == rest[..|inner|] && tail == rest[|inner| + 1..];
    assert inner' == rest[..|inner|] && tail' == rest[|inner| + 1..];
    assert body == tail[1..|tail| - |ENDING|] && body' == tail[1..|tail| - |ENDING|];
  }

  // ---------------------------------------------------------------- frames

  /**
   What the codec takes from its libraries: Unicode tables, HTML entities, UUID recognition, and
   whether a frame's JSON is within the peer size limit.
   */
  datatype Platform = Platform(unicode: Unicode, entities: Entities, isUuid: string -> bool, fits: Frame -> bool)

  /** A user frame; `role` is absent when `message` is not an object, `content` when it is not text. */
  datatype Frame = Frame(version: int, kind: string, id: string, role: Option<string>, content: Option<string>, from: string)

  datatype Decoded = Decoded(wireId: string, body: string, from: string, fromName: string, mode: Option<string>,
                             raw: string, hopChain: string)

  datatype Failure = EmptyBody | UnknownMode | TooLong | UnsupportedFrame | InvalidId | InvalidFrame | InvalidContent

  datatype Result<T> = Ok(value: T) | Err(failure: Failure)

  function Inner(from: string, name: string, mode: string): string {
    " " + (Attr("from", from) + (" " + (Attr("from-name", name) + (" " + Attr("from-mode", mode)))))
  }

  function FrameFor(p: Platform, body: string, address: string, name: string, mode: string, id: string): Frame {
    var inner := Inner(Escape(address), Escape(NormalizeName(p.unicode, name)), mode);
    Frame(1, "user", id, Some("user"), Some(Built(inner, Replace(body, CLOSING, ESCAPED))), address)
  }

  function EncodeUser(p: Platform, body: string, address: string, name: string, mode: string, id: string): Result<Frame> {
    if body == "" then Err(EmptyBody)
    else if mode != "prompting" && mode != "bypass" then Err(UnknownMode)
    else if !p.fits(FrameFor(p, body, address, name, mode, id)) then Err(TooLong)
    else Ok(FrameFor(p, body, address, name, mode, id))
  }

  /** Later attributes of the same name win. */
  function AttributeMap(p: Platform, pairs: seq<(string, string)>): map<string, string> {
    if pairs == [] then map[]
    else
      var n := |pairs| - 1;
      AttributeMap(p, pairs[..n])[pairs[n].0 := Unescape(p.entities, pairs[n].1)]
  }

  function Lookup(attrs: map<string, string>, name: string): Option<string> {
    if name in attrs then Some(attrs[name]) else None
  }

  function OrEmpty(s: Option<string>): string { if s.Some? then s.value else "" }

  function DecodeText(p: Platform, f: Frame, text: string, attrs: map<string, string>, body: string): Decoded {
    Decoded(f.id, body, f.from, NormalizeName(p.unicode, OrEmpty(Lookup(attrs, "from-name"))),
            Lookup(attrs, "from-mode"), text, OrEmpty(Lookup(attrs, "hop-chain")))
  }

  function DecodeSpec(p: Platform, f: Frame): Result<Decoded> {
    if f.version != 1 || f.kind != "user" then Err(UnsupportedFrame)
    else if !p.isUuid(f.id) then Err(InvalidId)
    else if f.role != Some("user") then Err(InvalidFrame)
    else if f.content.None? then Err(InvalidContent)
    else
      var text := f.content.value;
      match Match(text)
      case None => Ok(DecodeText(p, f, text, map[], text))
      case Some((attrs, body)) =>
        Ok(DecodeText(p, f, text, AttributeMap(p, Attributes(attrs)), Replace(body, ESCAPED, CLOSING)))
  }

  method DecodeUser(p: Platform, f: Frame) returns (r: Result<Decoded>)
    ensures r == DecodeSpec(p, f)
  {
    if f.version != 1 || f.kind != "user" {
      return Err(UnsupportedFrame);
    }
    if !p.isUuid(f.id) {
      return Err(InvalidId);
    }
    if f.role != Some("user") {
      return Err(InvalidFrame);
    }
    if f.content.None? {
      return Err(InvalidContent);
    }
    var text := f.content.value;
    var body, attrs := text, map[];
    var m := Match(text);
    if m.Some? {
      attrs := FillAttributes(p, Attributes(m.value.0));
      body := Replace(m.value.1, ESCAPED, CLOSING);
    }
    r := Ok(DecodeText(p, f, text, attrs, body));
  }

  method FillAttributes(p: Platform, pairs: seq<(string, string)>) returns (attrs: map<string, string>)
    ensures attrs == AttributeMap(p, pairs)
  {
    attrs := map[];
    var i := 0;
    while i < |pairs|
      invariant 0 <= i <= |pairs| && attrs == AttributeMap(p, pairs[..i])
    {
      assert pairs[..i + 1][..i] == pairs[..i];
      attrs := attrs[pairs[i].0 := Unescape(p.entities, pairs[i].1)];
      i := i + 1;
    }
    assert pairs[..i] == pairs;
  }

  // ---------------------------------------------------------------- the round trip

  lemma {:induction false} UnescapePlain(table: Entities, s: string)
    requires '&' !in s
    ensures Unescape(table, s) == s
  {
    if s != "" {
      UnescapePlain(table, s[1..]);
    }
  }

  /** The three names the encoder writes are words. */
  lemma NamesAreWords(name: string)
    requires name == "from" || name == "from-name" || name == "from-mode"
    ensures name != "" && forall i :: 0 <= i < |name| ==> WordChar(name[i])
  {
  }

  lemma LastAttribute(mode: string)
    requires '"' !in mode
    ensures Attributes(" " + Attr("from-mode", mode)) == [("from-mode", mode)]
  {
    var last := Attr("from-mode", mode);
    NamesAreWords("from-mode");
    ReadAttr("from-mode", mode, "");
    assert last + "" == last;
    SkipSpace(last);
  }

  lemma LastTwoAttributes(name: string, mode: string)
    requires '"' !in name && '"' !in mode
    ensures Attributes(" " + (Attr("from-name", name) + (" " + Attr("from-mode", mode)))) == [("from-name", name), ("from-mode", mode)]
  {
    var rest := " " + Attr("from-mode", mode);
    LastAttribute(mode);
    NamesAreWords("from-name");
    ReadAttr("from-name", name, rest);
    SkipSpace(Attr("from-name", name) + rest);
  }

  lemma InnerAttributes(from: string, name: string, mode: string)
    requires '"' !in from && '"' !in name && '"' !in mode
    ensures Attributes(Inner(from, name, mode)[1..]) == [("from", from), ("from-name", name), ("from-mode", mode)]
  {
    var rest := " " + (Attr("from-name", name) + (" " + Attr("from-mode", mode)));
    LastTwoAttributes(name, mode);
    NamesAreWords("from");
    ReadAttr("from", from, rest);
    assert Inner(from, name, mode)[1..] == Attr("from", from) + rest;
  }

  lemma InnerShape(from: string, name: string, mode: string)
    requires '>' !in from && '>' !in name && '>' !in mode
    ensures var inner := Inner(from, name, mode);
      '>' !in inner && |inner| >= 2 && Space(inner[0]) && AttrText(inner) == inner[1..]
  {
    var inner := Inner(from, name, mode);
    assert inner[1] == 'f';
    assert SpaceLength(inner[1..]) == 0;
    assert '>' !in Attr("from", from) && '>' !in Attr("from-name", name) && '>' !in Attr("from-mode", mode);
  }

  lemma ModeIsPlain(mode: string)
    requires mode == "prompting" || mode == "bypass"
    ensures '"' !in mode && '>' !in mode && '&' !in mode
  {
  }

  lemma ThreeAttributes(p: Platform, from: string, name: string, mode: string)
    ensures var attrs := AttributeMap(p, [("from", from), ("from-name", name), ("from-mode", mode)]);
      && Lookup(attrs, "from-name") == Some(Unescape(p.entities, name))
      && Lookup(attrs, "from-mode") == Some(Unescape(p.entities, mode))
      && Lookup(attrs, "hop-chain") == None
  {
    var a, b, c := ("from", from), ("from-name", name), ("from-mode", mode);
    assert [a, b, c][..2] == [a, b] && [a, b][..1] == [a] && [a][..0] == [];
    var none: map<string, string> := map[];
    assert AttributeMap(p, [a]) == none["from" := Unescape(p.entities, from)];
    assert "hop-chain"[0] == 'h' && "from"[0] == 'f' && "from-name"[0] == 'f' && "from-mode"[0] == 'f';
  }

  /**
   A message with a body and a known mode is encoded, size permitting, and decoding it returns the
   sender's body with each escaped closing tag turned into the plain one, the sender's normalised
   name, its mode, its address and its message ID.
   */
  lemma DecodeEncoded(p: Platform, body: string, address: string, name: string, mode: string, id: string)
    requires Sane(p.unicode) && Standard(p.entities) && p.isUuid(id)
    requires body != "" && (mode == "prompting" || mode == "bypass")
    ensures var f := FrameFor(p, body, address, name, mode, id);
      && EncodeUser(p, body, address, name, mode, id) == (if p.fits(f) then Ok(f) else Err(TooLong))
      && DecodeSpec(p, f) == Ok(Decoded(id, Replace(body, ESCAPED, CLOSING), address, NormalizeName(p.unicode, name),
                                        Some(mode), f.content.value, ""))
  {
    var from, plain := Escape(address), NormalizeName(p.unicode, name);
    var inner := Inner(from, Escape(plain), mode);
    EscapeIsQuotable(address);
    EscapeIsQuotable(plain);
    ModeIsPlain(mode);
    InnerShape(from, Escape(plain), mode);
    MatchBuilt(inner, Replace(body, CLOSING, ESCAPED));
    InnerAttributes(from, Escape(plain), mode);
    ThreeAttributes(p, from, Escape(plain), mode);
    UnescapeEscape(p.entities, plain);
    UnescapePlain(p.entities, mode);
    NormalizeIdempotent(p.unicode, name);
    TheTags();
    EscapeThenUndo(body, CLOSING, ESCAPED);
  }

  /** A body comes back exactly, plain closing tags included, if and only if it has no escaped closing tag. */
  lemma ExactRoundTrip(p: Platform, body: string, address: string, name: string, mode: string, id: string)
    requires Sane(p.unicode) && Standard(p.entities) && p.isUuid(id)
    requires body != "" && (mode == "prompting" || mode == "bypass")
    ensures DecodeSpec(p, FrameFor(p, body, address, name, mode, id)).Ok?
    ensures DecodeSpec(p, FrameFor(p, body, address, name, mode, id)).value.body == body <==> !Occurs(ESCAPED, body)
  {
    DecodeEncoded(p, body, address, name, mode, id);
    ReplaceFixes(body, ESCAPED, CLOSING);
  }

  /** Each refusal to encode, from the message alone. */
  lemma EncodeFails(p: Platform, body: string, address: string, name: string, mode: string, id: string)
    ensures var r, known := EncodeUser(p, body, address, name, mode, id), mode == "prompting" || mode == "bypass";
      && (r == Err(EmptyBody) <==> body == "")
      && (r == Err(UnknownMode) <==> body != "" && !known)
      && (r == Err(TooLong) <==> body != "" && known && !p.fits(FrameFor(p, body, address, name, mode, id)))
      && (r.Ok? <==> body != "" && known && p.fits(FrameFor(p, body, address, name, mode, id)))
  {
  }

  // ---------------------------------------------------------------- decoding what any peer may send

  /** Each error from the frame alone; every other frame is decoded. */
  lemma DecodeFails(p: Platform, f: Frame)
    ensures var r, wrong, bad, stray := DecodeSpec(p, f), f.version != 1 || f.kind != "user", !p.isUuid(f.id), f.role != Some("user");
      && (r == Err(UnsupportedFrame) <==> wrong)
      && (r == Err(InvalidId) <==> !wrong && bad)
      && (r == Err(InvalidFrame) <==> !wrong && !bad && stray)
      && (r == Err(InvalidContent) <==> !wrong && !bad && !stray && f.content.None?)
      && (r.Ok? <==> !wrong && !bad && !stray && f.content.Some?)
  {
  }

  predicate Decodable(p: Platform, f: Frame) {
    f.version == 1 && f.kind == "user" && p.isUuid(f.id) && f.role == Some("user") && f.content.Some?
  }

  /** The text has the envelope's shape. */
  ghost predicate Enveloped(text: string) {
    exists inner, body :: '>' !in inner && |inner| >= 2 && Space(inner[0]) && text == Built(inner, body)
  }

  lemma TailShape(tail: string)
    requires |tail| > |ENDING| && tail[0] == '\n' && tail[|tail| - |ENDING|..] == ENDING
    ensures tail == "\n" + tail[1..|tail| - |ENDING|] + ENDING
  {
    var k := |tail| - |ENDING|;
    assert tail == [tail[0]] + tail[1..k] + tail[k..];
  }

  lemma MatchIsBuilt(text: string) returns (inner: string, body: string)
    requires Match(text).Some?
    ensures '>' !in inner && |inner| >= 2 && Space(inner[0]) && text == Built(inner, body)
  {
    var rest := text[|OPEN|..];
    var g := Find(rest, '>');
    var tail := rest[g + 1..];
    inner, body := rest[..g], tail[1..|tail| - |ENDING|];
    TailShape(tail);
    CutApart(rest, g);
    assert text == OPEN + rest;
  }

  lemma MatchExactly(text: string)
    ensures Match(text).Some? <==> Enveloped(text)
  {
    if Match(text).Some? {
      var inner, body := MatchIsBuilt(text);
    }
    forall inner, body | '>' !in inner && |inner| >= 2 && Space(inner[0]) && text == Built(inner, body)
      ensures Match(text).Some?
    {
      MatchBuilt(inner, body);
    }
  }

  /** A text that is no envelope is its own body, from a peer without a name, a mode or a hop chain. */
  lemma DecodePlain(p: Platform, f: Frame)
    requires Decodable(p, f) && !Enveloped(f.content.value)
    ensures DecodeSpec(p, f) ==
      Ok(Decoded(f.id, f.content.value, f.from, NormalizeName(p.unicode, ""), None, f.content.value, ""))
  {
    MatchExactly(f.content.value);
  }

  /** Attributes as an envelope has them, each after a space. */
  function AttrList(pairs: seq<(string, string)>): string {
    if pairs == [] then "" else " " + (Attr(pairs[0].0, pairs[0].1) + AttrList(pairs[1..]))
  }

  ghost predicate Writable(pair: (string, string)) {
    && pair.0 != "" && (forall i :: 0 <= i < |pair.0| ==> WordChar(pair.0[i]))
    && '"' !in pair.1 && '>' !in pair.1
  }

  lemma {:induction false} AttributesListed(pairs: seq<(string, string)>)
    requires forall i :: 0 <= i < |pairs| ==> Writable(pairs[i])
    ensures Attributes(AttrList(pairs)) == pairs
  {
    if pairs != [] {
      AttributesListed(pairs[1..]);
      ReadAttr(pairs[0].0, pairs[0].1, AttrList(pairs[1..]));
      SkipSpace(Attr(pairs[0].0, pairs[0].1) + AttrList(pairs[1..]));
      assert [pairs[0]] + pairs[1..] == pairs;
    }
  }

  lemma NoBracket(s: string)
    requires forall i :: 0 <= i < |s| ==> WordChar(s[i])
    ensures '>' !in s
  {
  }

  lemma {:induction false} ListIsPlain(pairs: seq<(string, string)>)
    requires forall i :: 0 <= i < |pairs| ==> Writable(pairs[i])
    ensures '>' !in AttrList(pairs)
  {
    if pairs != [] {
      ListIsPlain(pairs[1..]);
      NoBracket(pairs[0].0);
      assert '>' !in Attr(pairs[0].0, pairs[0].1);
    }
  }

  lemma ListShape(pairs: seq<(string, string)>)
    requires pairs != [] && Writable(pairs[0])
    ensures var s := AttrList(pairs); |s| >= 2 && Space(s[0]) && AttrText(s) == s[1..]
  {
    var s := AttrList(pairs);
    assert s[1] == pairs[0].0[0] && WordChar(s[1]);
    assert SpaceLength(s[1..]) == 0;
  }

  lemma ListRead(pairs: seq<(string, string)>)
    requires pairs != [] && forall i :: 0 <= i < |pairs| ==> Writable(pairs[i])
    ensures Attributes(AttrText(AttrList(pairs))) == pairs
  {
    ListShape(pairs);
    AttributesListed(pairs);
    var s := AttrList(pairs);
    assert s == " " + s[1..];
    SkipSpace(s[1..]);
  }

  /** The value of an attribute: the last one of its name, unescaped. */
  ghost predicate Declares(p: Platform, pairs: seq<(string, string)>, name: string, value: Option<string>) {
    match value
    case None => forall i :: 0 <= i < |pairs| ==> pairs[i].0 != name
    case Some(v) =>
      exists i :: 0 <= i < |pairs| && pairs[i].0 == name && v == Unescape(p.entities, pairs[i].1)
                  && forall j :: i < j < |pairs| ==> pairs[j].0 != name
  }

  lemma {:induction false} LookupDeclared(p: Platform, pairs: seq<(string, string)>, name: string)
    ensures Declares(p, pairs, name, Lookup(AttributeMap(p, pairs), name))
  {
    if pairs != [] {
      var n := |pairs| - 1;
      LookupDeclared(p, pairs[..n], name);
      if pairs[n].0 == name {
        assert Lookup(AttributeMap(p, pairs), name) == Some(Unescape(p.entities, pairs[n].1));
      } else if Lookup(AttributeMap(p, pairs[..n]), name).Some? {
        var i :| 0 <= i < n && pairs[..n][i].0 == name
          && Lookup(AttributeMap(p, pairs[..n]), name).value == Unescape(p.entities, pairs[..n][i].1)
          && forall j :: i < j < n ==> pairs[..n][j].0 != name;
        assert pairs[i] == pairs[..n][i];
        assert forall j :: i < j < n ==> pairs[j] == pairs[..n][j];
      } else {
        assert forall i :: 0 <= i < n ==> pairs[i] == pairs[..n][i];
      }
    }
  }

  /**
   An envelope with any attributes, whoever wrote it: the body with its escaped tags made plain, and the
   name, mode and hop chain that its attributes declare, the last of a name counting.
   */
  lemma DecodeEnvelope(p: Platform, f: Frame, pairs: seq<(string, string)>, body: string) returns (name: Option<string>, hops: Option<string>)
    requires Decodable(p, f) && pairs != [] && forall i :: 0 <= i < |pairs| ==> Writable(pairs[i])
    requires f.content.value == Built(AttrList(pairs), body)
    ensures DecodeSpec(p, f).Ok?
    ensures var d := DecodeSpec(p, f).value;
      && d.wireId == f.id && d.from == f.from && d.raw == f.content.value && d.body == Replace(body, ESCAPED, CLOSING)
      && Declares(p, pairs, "from-mode", d.mode)
      && Declares(p, pairs, "from-name", name) && d.fromName == NormalizeName(p.unicode, OrEmpty(name))
      && Declares(p, pairs, "hop-chain", hops) && d.hopChain == OrEmpty(hops)
  {
    ListIsPlain(pairs);
    ListShape(pairs);
    MatchBuilt(AttrList(pairs), body);
    ListRead(pairs);
    var attrs := AttributeMap(p, pairs);
    name, hops := Lookup(attrs, "from-name"), Lookup(attrs, "hop-chain");
    LookupDeclared(p, pairs, "from-mode");
    LookupDeclared(p, pairs, "from-name");
    LookupDeclared(p, pairs, "hop-chain");
  }
}
