/**
 The message envelope: a pseudo-XML element whose attributes are HTML-escaped and whose body has its
 closing tag escaped.  Texts are sequences of Unicode code points.
 */
module Envelope {
  import opened Base

  const NAME := "cross-session-message"
  const OPEN := "<" + NAME
  const CLOSING := "</" + NAME + ">"
  const ESCAPED := "<\\/" + NAME + ">"

  // ---------------------------------------------------------------- replacing a tag

  /** `strings.ReplaceAll(s, a, b)`. */
  function Replace(s: string, a: string, b: string): string
    requires a != ""
    decreases |s|
  {
    if s == "" then "" else if a <= s then b + Replace(s[|a|..], a, b) else [s[0]] + Replace(s[1..], a, b)
  }

  /** A tag opens with "<" and has no other one, so two occurrences never overlap. */
  predicate Tag(t: string) { t != "" && t[0] == '<' && '<' !in t[1..] }

  /** Text without "<" is copied. */
  lemma {:induction false} CopyPlain(p: string, t: string, a: string, b: string)
    requires Tag(a) && '<' !in p
    ensures Replace(p + t, a, b) == p + Replace(t, a, b)
  {
    if p == "" {
      assert p + t == t;
    } else {
      assert (p + t)[1..] == p[1..] + t && p[0] != '<';
      CopyPlain(p[1..], t, a, b);
    }
  }

  /** A tag other than the one sought is copied whole. */
  lemma CopyTag(g: string, t: string, a: string, b: string)
    requires Tag(g) && Tag(a) && !(a <= g + t)
    ensures Replace(g + t, a, b) == g + Replace(t, a, b)
  {
    assert (g + t)[1..] == g[1..] + t;
    CopyPlain(g[1..], t, a, b);
    assert [g[0]] + (g[1..] + Replace(t, a, b)) == g + Replace(t, a, b);
  }

  /** Plain text at the head of the result was at the head of the source. */
  lemma {:induction false} PlainHead(p: string, t: string, a: string, b: string)
    requires Tag(a) && Tag(b) && '<' !in p && p <= Replace(t, a, b)
    ensures p <= t
  {
    if p != "" {
      assert p[0] == t[0];
      PlainHead(p[1..], t[1..], a, b);
    }
  }

  ghost predicate Different(a: string, b: string) { Tag(a) && Tag(b) && !(a <= b) && !(b <= a) }

  /** Replacing in the text after a character makes no new occurrence of `b` at that character. */
  lemma NoNewTag(c: char, t: string, a: string, b: string)
    requires Tag(a) && Tag(b)
    ensures b <= [c] + Replace(t, a, b) ==> b <= [c] + t
  {
    if b <= [c] + Replace(t, a, b) {
      assert b[1..] <= ([c] + Replace(t, a, b))[1..] == Replace(t, a, b);
      PlainHead(b[1..], t, a, b);
      assert b == [b[0]] + b[1..];
    }
  }

  /**
   Escaping one tag as another and undoing it turns every occurrence of the second tag into the
   first, and changes nothing else.
   */
  lemma {:induction false} EscapeThenUndo(s: string, a: string, b: string)
    requires Different(a, b)
    ensures Replace(Replace(s, a, b), b, a) == Replace(s, b, a)
    decreases |s|
  {
    if s == "" {
    } else if a <= s {
      var t := s[|a|..];
      assert s == a + t;
      EscapeThenUndo(t, a, b);
      CopyTag(a, t, b, a);
    } else if b <= s {
      var t := s[|b|..];
      assert s == b + t;
      EscapeThenUndo(t, a, b);
      CopyTag(b, t, a, b);
    } else {
      var t := s[1..];
      EscapeThenUndo(t, a, b);
      assert s == [s[0]] + t;
      NoNewTag(s[0], t, a, b);
      assert ([s[0]] + Replace(t, a, b))[1..] == Replace(t, a, b);
    }
  }

  /** Text that never contains the tag is untouched. */
  lemma {:induction false} NothingToReplace(s: string, a: string, b: string)
    requires a != "" && forall i :: 0 <= i <= |s| ==> !(a <= s[i..])
    ensures Replace(s, a, b) == s
    decreases |s|
  {
    if s != "" {
      assert s[0..] == s;
      forall i | 0 <= i <= |s[1..]| ensures !(a <= s[1..][i..]) {
        assert s[1..][i..] == s[i + 1..];
      }
      NothingToReplace(s[1..], a, b);
    }
  }

  ghost predicate Occurs(a: string, s: string) { exists i :: 0 <= i <= |s| && a <= s[i..] }

  lemma {:induction false} ReplaceShrinks(s: string, a: string, b: string)
    requires |b| < |a|
    ensures |Replace(s, a, b)| <= |s| && (Occurs(a, s) ==> |Replace(s, a, b)| < |s|)
    decreases |s|
  {
    if s != "" {
      if a <= s {
        ReplaceShrinks(s[|a|..], a, b);
      } else {
        ReplaceShrinks(s[1..], a, b);
        if Occurs(a, s) {
          var i :| 0 <= i <= |s| && a <= s[i..];
          assert s[0..] == s && s[1..][i - 1..] == s[i..];
        }
      }
    }
  }

  /** Replacing a tag by a shorter one changes a text exactly when the tag occurs in it. */
  lemma ReplaceFixes(s: string, a: string, b: string)
    requires |b| < |a|
    ensures Replace(s, a, b) == s <==> !Occurs(a, s)
  {
    ReplaceShrinks(s, a, b);
    if !Occurs(a, s) {
      NothingToReplace(s, a, b);
    }
  }

  lemma TheTags()
    ensures Different(CLOSING, ESCAPED)
  {
    assert CLOSING[1..] == "/" + NAME + ">";
    assert ESCAPED[1..] == "\\/" + NAME + ">";
    assert CLOSING[1] == '/' && ESCAPED[1] == '\\';
  }

  // ---------------------------------------------------------------- names

  /** The code points a name loses, and those trimmed from its ends, as the Unicode tables have them. */
  datatype Unicode = Unicode(dropped: char -> bool, space: char -> bool)

  const ELLIPSIS := '\U{2026}'
  const NAME_LIMIT := 64

  ghost predicate Sane(u: Unicode) { !u.dropped(ELLIPSIS) && !u.space(ELLIPSIS) }

  function Strip(u: Unicode, s: string): string {
    if s == "" then "" else (if u.dropped(s[0]) then "" else [s[0]]) + Strip(u, s[1..])
  }

  function TrimLeft(u: Unicode, s: string): string {
    if s != "" && u.space(s[0]) then TrimLeft(u, s[1..]) else s
  }

  function TrimRight(u: Unicode, s: string): string {
    if s != "" && u.space(s[|s| - 1]) then TrimRight(u, s[..|s| - 1]) else s
  }

  function NormalizeName(u: Unicode, name: string): string {
    var r := TrimRight(u, TrimLeft(u, Strip(u, name)));
    if |r| > NAME_LIMIT then r[..NAME_LIMIT - 1] + [ELLIPSIS] else r
  }

  /** Short, nothing droppable, no space at either end. */
  ghost predicate Normal(u: Unicode, s: string) {
    && |s| <= NAME_LIMIT
    && (forall i :: 0 <= i < |s| ==> !u.dropped(s[i]))
    && (s != "" ==> !u.space(s[0]) && !u.space(s[|s| - 1]))
  }

  lemma {:induction false} StripExact(u: Unicode, s: string)
    ensures forall i :: 0 <= i < |Strip(u, s)| ==> !u.dropped(Strip(u, s)[i])
    ensures (forall i :: 0 <= i < |s| ==> !u.dropped(s[i])) ==> Strip(u, s) == s
  {
    if s != "" {
      StripExact(u, s[1..]);
    }
  }

  lemma {:induction false} TrimLeftExact(u: Unicode, s: string)
    ensures TrimLeft(u, s) != "" ==> !u.space(TrimLeft(u, s)[0])
    ensures forall c :: c in TrimLeft(u, s) ==> c in s
  {
    if s != "" && u.space(s[0]) {
      TrimLeftExact(u, s[1..]);
    }
  }

  lemma {:induction false} TrimRightExact(u: Unicode, s: string)
    ensures TrimRight(u, s) <= s
    ensures TrimRight(u, s) != "" ==> !u.space(TrimRight(u, s)[|TrimRight(u, s)| - 1])
  {
    if s != "" && u.space(s[|s| - 1]) {
      TrimRightExact(u, s[..|s| - 1]);
    }
  }

  lemma NormalizeIsNormal(u: Unicode, name: string)
    requires Sane(u)
    ensures Normal(u, NormalizeName(u, name))
  {
    var a := Strip(u, name);
    var b := TrimLeft(u, a);
    var r := TrimRight(u, b);
    StripExact(u, name);
    TrimLeftExact(u, a);
    TrimRightExact(u, b);
    forall i | 0 <= i < |r| ensures !u.dropped(r[i]) {
      assert r[i] == b[i] && b[i] in b && b[i] in a;
    }
  }

  lemma NormalIsFixed(u: Unicode, s: string)
    requires Normal(u, s)
    ensures NormalizeName(u, s) == s
  {
    StripExact(u, s);
  }

  /** Normalising twice is normalising once. */
  lemma NormalizeIdempotent(u: Unicode, name: string)
    requires Sane(u)
    ensures NormalizeName(u, NormalizeName(u, name)) == NormalizeName(u, name)
  {
    NormalizeIsNormal(u, name);
    NormalIsFixed(u, NormalizeName(u, name));
  }

  /** All of these are spaces. */
  ghost predicate Spaces(u: Unicode, s: string) { forall i :: 0 <= i < |s| ==> u.space(s[i]) }

  lemma {:induction false} TrimLeftSplits(u: Unicode, s: string) returns (a: string)
    ensures Spaces(u, a) && s == a + TrimLeft(u, s)
  {
    if s != "" && u.space(s[0]) {
      var rest := TrimLeftSplits(u, s[1..]);
      a := [s[0]] + rest;
    } else {
      a := "";
    }
  }

  lemma {:induction false} TrimRightSplits(u: Unicode, s: string) returns (b: string)
    ensures Spaces(u, b) && s == TrimRight(u, s) + b
  {
    if s != "" && u.space(s[|s| - 1]) {
      var rest := TrimRightSplits(u, s[..|s| - 1]);
      b := rest + [s[|s| - 1]];
    } else {
      b := "";
    }
  }

  lemma {:induction false} StripConcat(u: Unicode, s: string, t: string)
    ensures Strip(u, s + t) == Strip(u, s) + Strip(u, t)
  {
    if s == "" {
      assert s + t == t;
    } else {
      assert (s + t)[1..] == s[1..] + t;
      StripConcat(u, s[1..], t);
    }
  }

  /**
   A normalised name is the name without the dropped code points and without the spaces around what
   is left; of more than 64 code points it keeps 63 and an ellipsis.
   */
  lemma NormalizeExactly(u: Unicode, name: string) returns (a: string, core: string, b: string)
    ensures Strip(u, name) == a + core + b && Spaces(u, a) && Spaces(u, b)
    ensures core != "" ==> !u.space(core[0]) && !u.space(core[|core| - 1])
    ensures NormalizeName(u, name) == if |core| > 64 then core[..63] + [ELLIPSIS] else core
  {
    var s := Strip(u, name);
    a := TrimLeftSplits(u, s);
    b := TrimRightSplits(u, TrimLeft(u, s));
    core := TrimRight(u, TrimLeft(u, s));
    TrimLeftExact(u, s);
    TrimRightExact(u, TrimLeft(u, s));
    assert a + core + b == a + (core + b);
  }
}
