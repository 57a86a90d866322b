/**
 * The JavaScript string operations the front-end relies on: `includes`,
 * `String(n)` for a whole number, `Number.parseInt` on a run of digits,
 * `trim`, and the UTF-8 encoding `Buffer.from(str, "utf8")` applies.
 */
module Text {
  import opened Bytes

  predicate StartsWith(s: string, prefix: string)
  {
    |prefix| <= |s| && s[..|prefix|] == prefix
  }

  /** `s.includes(part)`. */
  predicate Contains(s: string, part: string)
    decreases |s|
  {
    StartsWith(s, part) || (|s| > 0 && Contains(s[1..], part))
  }

  /** A string contains any piece of it that sits after some prefix. */
  lemma {:induction false} ContainsAfter(front: string, part: string, back: string)
    ensures Contains(front + part + back, part)
    decreases |front|
  {
    var s := front + part + back;
    if front == [] {
      assert s[..|part|] == part;
    } else {
      ContainsAfter(front[1..], part, back);
      assert s[1..] == front[1..] + part + back;
    }
  }

  /** A string contains whatever piece of it starts at some position. */
  lemma ContainsAt(s: string, k: nat, part: string)
    requires k + |part| <= |s|
    ensures s[k..k + |part|] == part ==> Contains(s, part)
  {
    if s[k..k + |part|] == part {
      assert s == s[..k] + part + s[k + |part|..];
      ContainsAfter(s[..k], part, s[k + |part|..]);
    }
  }

  /** Only a string at least as long as a piece can contain it. */
  lemma {:induction false} ContainsRoom(s: string, part: string)
    ensures Contains(s, part) ==> |part| <= |s|
    decreases |s|
  {
    if s != [] {
      ContainsRoom(s[1..], part);
    }
  }

  /** A string containing a + b contains b. */
  lemma {:induction false} ContainsTail(s: string, a: string, b: string)
    ensures Contains(s, a + b) ==> Contains(s, b)
    decreases |s|
  {
    if StartsWith(s, a + b) {
      assert s[|a|..|a| + |b|] == (a + b)[|a|..];
      ContainsAt(s, |a|, b);
    } else if s != [] {
      ContainsTail(s[1..], a, b);
    }
  }

  /** The numeral bases the error-log patterns use: `\d` and `[0-9a-fA-F]`. */
  datatype Radix = Decimal | Hex

  function Base(radix: Radix): nat
  {
    if radix == Decimal then 10 else 16
  }

  predicate IsDigit(radix: Radix, c: char)
  {
    match radix
    case Decimal => '0' <= c <= '9'
    case Hex => '0' <= c <= '9' || 'a' <= c <= 'f' || 'A' <= c <= 'F'
  }

  predicate AllDigits(radix: Radix, s: string)
  {
    forall i :: 0 <= i < |s| ==> IsDigit(radix, s[i])
  }

  function DigitValue(radix: Radix, c: char): (d: nat)
    requires IsDigit(radix, c)
    ensures d < Base(radix)
  {
    if '0' <= c <= '9' then c as int - '0' as int
    else if 'a' <= c <= 'f' then c as int - 'a' as int + 10
    else c as int - 'A' as int + 10
  }

  /** `Number.parseInt(s, base)` on a non-empty run of digits, most significant first. */
  function ParseNat(radix: Radix, s: string): nat
    requires AllDigits(radix, s)
  {
    if s == [] then 0
    else ParseNat(radix, s[..|s| - 1]) * Base(radix) + DigitValue(radix, s[|s| - 1])
  }

  /** The longest prefix of s made of digits: what a greedy `(\d+)` or `([0-9a-fA-F]+)` captures. */
  function DigitRun(radix: Radix, s: string): (run: string)
    ensures StartsWith(s, run) && AllDigits(radix, run)
    ensures |run| == |s| || !IsDigit(radix, s[|run|])
    ensures s != [] && IsDigit(radix, s[0]) ==> run != []
  {
    if s == [] || !IsDigit(radix, s[0]) then ""
    else [s[0]] + DigitRun(radix, s[1..])
  }

  function DigitChar(d: nat): (c: char)
    requires d < 10
    ensures IsDigit(Decimal, c) && DigitValue(Decimal, c) == d
  {
    ('0' as int + d) as char
  }

  /** `String(n)` / `${n}` for a whole number: its decimal numeral without leading zeros. */
  function Dec(n: nat): (s: string)
    ensures s != [] && AllDigits(Decimal, s)
    ensures n > 0 ==> s[0] != '0'
  {
    if n < 10 then [DigitChar(n)] else Dec(n / 10) + [DigitChar(n % 10)]
  }

  /** Printing a number in decimal and parsing it back gives the number. */
  lemma {:induction false} ParseDec(n: nat)
    ensures ParseNat(Decimal, Dec(n)) == n
  {
    var s := Dec(n);
    if n < 10 {
      assert s[..0] == [];
    } else {
      ParseDec(n / 10);
      assert s[..|s| - 1] == Dec(n / 10);
    }
  }

  /** Whitespace and line terminators as ECMAScript's `String.prototype.trim` strips them. */
  predicate IsSpace(c: char)
  {
    c in {'\U{0009}', '\U{000A}', '\U{000B}', '\U{000C}', '\U{000D}', '\U{0020}', '\U{00A0}',
          '\U{1680}', '\U{2028}', '\U{2029}', '\U{202F}', '\U{205F}', '\U{3000}', '\U{FEFF}'}
    || '\U{2000}' <= c <= '\U{200A}'
  }

  /** Whether some character of s is not whitespace: the reading of `s.trim()` as a truthy value. */
  predicate HasVisible(s: string)
  {
    exists i :: 0 <= i < |s| && !IsSpace(s[i])
  }

  function TrimStart(s: string): (r: string)
    ensures |r| <= |s| && r == s[|s| - |r|..]
    ensures r == [] || !IsSpace(r[0])
    ensures forall i :: 0 <= i < |s| - |r| ==> IsSpace(s[i])
  {
    if s != [] && IsSpace(s[0]) then TrimStart(s[1..]) else s
  }

  function TrimEnd(s: string): (r: string)
    ensures |r| <= |s| && r == s[..|r|]
    ensures r == [] || !IsSpace(r[|r| - 1])
    ensures forall i :: |r| <= i < |s| ==> IsSpace(s[i])
  {
    if s != [] && IsSpace(s[|s| - 1]) then TrimEnd(s[..|s| - 1]) else s
  }

  /** `s.trim()`: s without its leading and trailing whitespace. */
  function Trim(s: string): (r: string)
    ensures r == [] <==> !HasVisible(s)
    ensures r == [] || (!IsSpace(r[0]) && !IsSpace(r[|r| - 1]))
  {
    var t := TrimStart(s);
    var r := TrimEnd(t);
    assert r != [] ==> !IsSpace(s[|s| - |t|]) by {
      if r != [] { assert r[0] == t[0] == s[|s| - |t|]; }
    }
    assert r == [] ==> t == [];
    r
  }

  /** Trimming twice is trimming once. */
  lemma TrimIdempotent(s: string)
    ensures Trim(Trim(s)) == Trim(s)
  {
    var r := Trim(s);
    assert TrimStart(r) == r;
    assert TrimEnd(r) == r;
  }

  /** The UTF-8 encoding of one Unicode scalar value. */
  function Utf8Char(c: char): (r: seq<byte>)
    ensures 1 <= |r| <= 4
    ensures (c as int < 0x80) <==> |r| == 1
    ensures c as int < 0x80 ==> r == [c as int]
  {
    var v := c as int;
    if v < 0x80 then [v]
    else if v < 0x800 then [0xC0 + v / 0x40, 0x80 + v % 0x40]
    else if v < 0x1_0000 then [0xE0 + v / 0x1000, 0x80 + (v / 0x40) % 0x40, 0x80 + v % 0x40]
    else [0xF0 + v / 0x4_0000, 0x80 + (v / 0x1000) % 0x40, 0x80 + (v / 0x40) % 0x40, 0x80 + v % 0x40]
  }

  /** `Buffer.from(s, "utf8")`: the characters' encodings, in order. */
  function Utf8(s: string): (r: seq<byte>)
    ensures |s| <= |r| <= 4 * |s|
    ensures |r| == |s| <==> forall i :: 0 <= i < |s| ==> s[i] as int < 0x80
  {
    if s == [] then [] else Utf8(s[..|s| - 1]) + Utf8Char(s[|s| - 1])
  }

  /** A string of ASCII characters encodes to one byte per character, each its code. */
  lemma {:induction false} Utf8Ascii(s: string)
    requires forall i :: 0 <= i < |s| ==> s[i] as int < 0x80
    ensures Utf8(s) == seq(|s|, i requires 0 <= i < |s| => s[i] as int)
  {
    if s != [] {
      Utf8Ascii(s[..|s| - 1]);
    }
  }
}
