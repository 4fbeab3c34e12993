/** Hexadecimal and decimal text, as C's `%016lx`/`%d` print it and as
    Python's `int(s, 16)` reads it back. */
module Text {
  import opened Arith

  function Pow16(n: nat): (p: nat)
    ensures p > 0
  {
    if n == 0 then 1 else 16 * Pow16(n - 1)
  }

  /** The lower-case digit `%x` prints for a nibble. */
  function HexDigit(d: nat): char
    requires d < 16
  {
    if d < 10 then ('0' as int + d) as char else ('a' as int + (d - 10)) as char
  }

  /** The characters `int(s, 16)` accepts as digits. */
  predicate IsHexChar(c: char) {
    '0' <= c <= '9' || 'a' <= c <= 'f' || 'A' <= c <= 'F'
  }

  predicate IsHexString(s: string) {
    forall i | 0 <= i < |s| :: IsHexChar(s[i])
  }

  /** The digits `%x` prints: `0`-`9` and lower-case `a`-`f`. */
  predicate IsLowerHexString(s: string) {
    forall i | 0 <= i < |s| :: '0' <= s[i] <= '9' || 'a' <= s[i] <= 'f'
  }

  function HexValue(c: char): (v: nat)
    requires IsHexChar(c)
    ensures v < 16
  {
    if '0' <= c <= '9' then c as int - '0' as int
    else if 'a' <= c <= 'f' then c as int - 'a' as int + 10
    else c as int - 'A' as int + 10
  }

  lemma HexValueOfDigit(d: nat)
    requires d < 16
    ensures IsHexChar(HexDigit(d)) && HexValue(HexDigit(d)) == d
  {
  }

  /** `%0<n>x` for `x < 16^n`, as `%016lx` prints a u64: `n` hex digits,
      zero-padded, most significant first. A larger `x` keeps only its low
      `n` digits here, where printf would print them all. */
  function Hex(x: nat, n: nat): (s: string)
    ensures |s| == n
    ensures IsHexString(s) && IsLowerHexString(s)
  {
    if n == 0 then [] else Hex(x / 16, n - 1) + [HexDigit(x % 16)]
  }

  /** `int(s, 16)` on a string made of hex digits only. */
  function ParseHex(s: string): (v: nat)
    requires IsHexString(s)
    ensures v < Pow16(|s|)
  {
    if s == [] then 0
    else
      var init := ParseHex(s[..|s| - 1]);
      assert init * 16 <= (Pow16(|s| - 1) - 1) * 16;
      init * 16 + HexValue(s[|s| - 1])
  }

  /** Reading back `n` printed hex digits recovers `x` modulo `16^n`. */
  lemma {:induction false} ParseHexOfHex(x: nat, n: nat)
    ensures ParseHex(Hex(x, n)) == x % Pow16(n)
  {
    if n > 0 {
      var s := Hex(x, n);
      assert s[..|s| - 1] == Hex(x / 16, n - 1);
      ParseHexOfHex(x / 16, n - 1);
      HexValueOfDigit(x % 16);
      DivModNest(x, 16, Pow16(n - 1));
    }
  }

  /** `x` with its low `m` hex digits dropped. */
  function DropDigits(x: nat, m: nat): nat {
    if m == 0 then x else DropDigits(x / 16, m - 1)
  }

  /** Dropping `m` hex digits is dividing by `16^m`. */
  lemma {:induction false} DropDigitsDiv(x: nat, m: nat)
    ensures DropDigits(x, m) == x / Pow16(m)
  {
    if m > 0 {
      DropDigitsDiv(x / 16, m - 1);
      DivDiv(x, 16, Pow16(m - 1));
    }
  }

  /** The powers of sixteen that fixed-width fields use. */
  lemma Pow16Values()
    ensures Pow16(3) == 0x1000 && Pow16(4) == 0x1_0000
    ensures Pow16(16) == 0x1_0000_0000_0000_0000
  {
    assert Pow16(2) == 0x100;
    assert Pow16(4) == 0x1_0000;
    assert Pow16(6) == 0x100_0000;
    assert Pow16(8) == 0x1_0000_0000;
    assert Pow16(10) == 0x100_0000_0000;
    assert Pow16(12) == 0x1_0000_0000_0000;
    assert Pow16(14) == 0x100_0000_0000_0000;
  }

  /** The printed digits of `x` split into its high digits and its low `m` digits. */
  lemma {:induction false} HexSplit(x: nat, n: nat, m: nat)
    ensures Hex(x, n + m) == Hex(DropDigits(x, m), n) + Hex(x, m)
  {
    if m > 0 {
      var d := [HexDigit(x % 16)];
      HexSplit(x / 16, n, m - 1);
      calc {
        Hex(x, n + m);
        Hex(x / 16, n + (m - 1)) + d;
        (Hex(DropDigits(x / 16, m - 1), n) + Hex(x / 16, m - 1)) + d;
        Hex(DropDigits(x, m), n) + (Hex(x / 16, m - 1) + d);
        Hex(DropDigits(x, m), n) + Hex(x, m);
      }
    }
  }

  function DecDigit(d: nat): char
    requires d < 10
  {
    ('0' as int + d) as char
  }

  predicate IsDecString(s: string) {
    forall i | 0 <= i < |s| :: '0' <= s[i] <= '9'
  }

  /** `%d` / Python's `str` of a non-negative integer: no leading zeros. */
  function Dec(n: nat): (s: string)
    ensures |s| > 0 && IsDecString(s)
    ensures |s| > 1 ==> s[0] != '0'
  {
    if n < 10 then [DecDigit(n)] else Dec(n / 10) + [DecDigit(n % 10)]
  }

  /** Python's `int(s)` on a string of decimal digits. */
  function ParseDec(s: string): nat
    requires IsDecString(s)
  {
    if s == [] then 0 else ParseDec(s[..|s| - 1]) * 10 + (s[|s| - 1] as int - '0' as int)
  }

  lemma {:induction false} ParseDecOfDec(n: nat)
    ensures ParseDec(Dec(n)) == n
  {
    if n >= 10 {
      var s := Dec(n);
      assert s[..|s| - 1] == Dec(n / 10);
      ParseDecOfDec(n / 10);
    }
  }

  /** The characters `%d` prints. */
  predicate IsDigit(c: char) {
    '0' <= c <= '9'
  }

  /** The longest prefix of decimal digits, and the rest. */
  function ReadDigits(s: string): (r: (string, string))
    ensures r.0 + r.1 == s && IsDecString(r.0)
    ensures r.1 != [] ==> !IsDigit(r.1[0])
  {
    if s == [] || !IsDigit(s[0]) then ([], s)
    else
      var (d, rest) := ReadDigits(s[1..]);
      ([s[0]] + d, rest)
  }

  /** A printed number followed by a non-digit reads back whole. */
  lemma ReadDigitsOfDec(e: nat, rest: string)
    requires rest == [] || !IsDigit(rest[0])
    ensures ReadDigits(Dec(e) + rest) == (Dec(e), rest)
  {
    ReadDigitsPrefix(Dec(e), rest);
  }

  lemma {:induction false} ReadDigitsPrefix(d: string, rest: string)
    requires IsDecString(d) && (rest == [] || !IsDigit(rest[0]))
    ensures ReadDigits(d + rest) == (d, rest)
    decreases |d|
  {
    if d == [] {
      assert d + rest == rest;
    } else {
      assert (d + rest)[0] == d[0] && IsDigit(d[0]);
      assert (d + rest)[1..] == d[1..] + rest;
      ReadDigitsPrefix(d[1..], rest);
      assert [d[0]] + d[1..] == d;
    }
  }
}
