/** Values shared by the modules of the model. */
module Base {
  /** A value the bridge may not have: a missing wake, an absent cursor, an unset owner. */
  datatype Option<+T> = None | Some(value: T)

  /** A process: a PID together with the start time that tells it from a reuse of the PID. */
  datatype Proc = Proc(pid: int, start: string)

  /** The kernel gives a PID to one live process at a time. */
  ghost predicate UniquePids(alive: set<Proc>) {
    forall p, q :: p in alive && q in alive && p.pid == q.pid ==> p == q
  }

  /** The position of the first `c`, or the length. */
  function Find(s: string, c: char): (i: nat)
    ensures i <= |s| && (i < |s| ==> s[i] == c) && forall j :: 0 <= j < i ==> s[j] != c
  {
    if s == "" || s[0] == c then 0 else 1 + Find(s[1..], c)
  }

  lemma FindAt(a: string, c: char, b: string)
    requires c !in a
    ensures Find(a + [c] + b, c) == |a| && Find(a, c) == |a|
  {
    var s := a + [c] + b;
    assert s[|a|] == c;
    assert forall j :: 0 <= j < |a| ==> s[j] == a[j];
  }

  // ---------------------------------------------------------------- splitting and joining

  function Join(parts: seq<string>, c: char): string {
    if |parts| == 0 then "" else if |parts| == 1 then parts[0] else parts[0] + [c] + Join(parts[1..], c)
  }

  /** `strings.Split` at one character. */
  function Split(s: string, c: char): seq<string>
    decreases |s|
  {
    var i := Find(s, c);
    if i == |s| then [s] else [s[..i]] + Split(s[i + 1..], c)
  }

  lemma SplitHead(a: string, c: char, rest: string)
    requires c !in a
    ensures Split(a + [c] + rest, c) == [a] + Split(rest, c)
  {
    var s := a + [c] + rest;
    FindAt(a, c, rest);
    assert s[..|a|] == a && s[|a| + 1..] == rest;
  }

  lemma {:induction false} SplitJoin(parts: seq<string>, c: char)
    requires parts != [] && forall i :: 0 <= i < |parts| ==> c !in parts[i]
    ensures Split(Join(parts, c), c) == parts
  {
    if |parts| == 1 {
      FindAt(parts[0], c, "");
    } else {
      SplitHead(parts[0], c, Join(parts[1..], c));
      SplitJoin(parts[1..], c);
      assert [parts[0]] + parts[1..] == parts;
    }
  }

  lemma CutApart(s: string, i: nat)
    requires i < |s|
    ensures s[..i] + [s[i]] + s[i + 1..] == s
  {
  }

  lemma {:induction false} JoinSplit(s: string, c: char)
    ensures Split(s, c) != [] && Join(Split(s, c), c) == s
    decreases |s|
  {
    var i := Find(s, c);
    if i < |s| {
      JoinSplit(s[i + 1..], c);
      CutApart(s, i);
    }
  }

  lemma {:induction false} JoinChars(parts: seq<string>, c: char, d: char)
    requires c != d && forall i :: 0 <= i < |parts| ==> d !in parts[i]
    ensures d !in Join(parts, c)
  {
    if |parts| > 1 {
      JoinChars(parts[1..], c, d);
    }
  }

  // ---------------------------------------------------------------- numerals

  const UINT64 := 0x1_0000_0000_0000_0000

  /** The value of a digit, upper or lower case; 16 for any other character. */
  function DigitValue(c: char): nat {
    if '0' <= c <= '9' then (c - '0') as nat
    else if 'a' <= c <= 'f' then (c - 'a') as nat + 10
    else if 'A' <= c <= 'F' then (c - 'A') as nat + 10
    else 16
  }

  predicate Numeral(s: string, base: nat) { forall i :: 0 <= i < |s| ==> DigitValue(s[i]) < base }

  function Number(s: string, base: nat): nat {
    if s == "" then 0 else base * Number(s[..|s| - 1], base) + DigitValue(s[|s| - 1])
  }

  /** `strconv.ParseUint(s, base, 64)`. */
  function ParseUint(s: string, base: nat): (r: Option<nat>)
    ensures r.Some? ==> r.value < UINT64
  {
    if s != "" && Numeral(s, base) && Number(s, base) < UINT64 then Some(Number(s, base)) else None
  }

  function DigitOf(d: nat): (c: char)
    requires d < 16
    ensures DigitValue(c) == d
  {
    if d < 10 then '0' + d as char else 'A' + (d - 10) as char
  }

  /** `n` in a base, with leading zeros up to a width. */
  function Digits(n: nat, base: nat, width: nat): string
    requires base == 10 || base == 16
    decreases n, width
  {
    if n == 0 && width == 0 then ""
    else
      Digits(n / base, base, if width == 0 then 0 else width - 1) + [DigitOf(n % base)]
  }

  ghost predicate Prints(s: string, n: nat, base: nat, width: nat) {
    Numeral(s, base) && Number(s, base) == n && |s| >= width
  }

  lemma PrintsAppend(s: string, n: nat, base: nat, width: nat)
    requires (base == 10 || base == 16) && Prints(s, n / base, base, if width == 0 then 0 else width - 1)
    ensures Prints(s + [DigitOf(n % base)], n, base, width)
  {
  }

  lemma {:induction false} DigitsExact(n: nat, base: nat, width: nat)
    requires base == 10 || base == 16
    ensures Prints(Digits(n, base, width), n, base, width)
    decreases n, width
  {
    if n > 0 || width > 0 {
      var w := if width == 0 then 0 else width - 1;
      DigitsExact(n / base, base, w);
      PrintsAppend(Digits(n / base, base, w), n, base, width);
    }
  }

  /** Printing a number with at least one digit and reading it back. */
  lemma DigitsParse(n: nat, base: nat, width: nat)
    requires (base == 10 || base == 16) && n < UINT64 && width > 0
    ensures ParseUint(Digits(n, base, width), base) == Some(n)
  {
    DigitsExact(n, base, width);
  }
}
