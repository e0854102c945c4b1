/** Text helpers shared by the renderers: how Rust's `{}` prints integers and
    booleans, `[..].join(sep)`, ASCII case folding, substring search and the
    UTF-8 byte length that `String::len` reports. */
module Text {

  predicate IsDigit(c: char) {
    '0' <= c <= '9'
  }

  predicate AllDigits(s: string) {
    forall i :: 0 <= i < |s| ==> IsDigit(s[i])
  }

  function DigitChar(d: nat): (c: char)
    requires d < 10
    ensures IsDigit(c) && DigitValue(c) == d
  {
    "0123456789"[d]
  }

  function DigitValue(c: char): nat
    requires IsDigit(c)
  {
    (c as int - '0' as int) as nat
  }

  /** Decimal digits of `n`, most significant first, without leading zeros. */
  function NatText(n: nat): (r: string)
    ensures |r| >= 1 && AllDigits(r)
  {
    if n < 10 then [DigitChar(n)] else NatText(n / 10) + [DigitChar(n % 10)]
  }

  /** Rust's Display for a signed integer: a minus sign, then the digits. */
  function IntText(n: int): (r: string)
    ensures |r| >= 1
    ensures forall i :: 0 <= i < |r| ==> r[i] == '-' || IsDigit(r[i])
  {
    if n < 0 then "-" + NatText(-n) else NatText(n)
  }

  /** Rust's Display for `bool`. */
  function BoolText(b: bool): (r: string)
    ensures r == "true" || r == "false"
    ensures r == "true" <==> b
  {
    if b then "true" else "false"
  }

  /** Reads a string of decimal digits back into the number it denotes. */
  function ParseNat(s: string): nat
    requires AllDigits(s)
  {
    if s == [] then 0 else ParseNat(s[..|s| - 1]) * 10 + DigitValue(s[|s| - 1])
  }

  /** Reads an optionally signed decimal numeral. */
  function ParseInt(s: string): int
    requires |s| >= 1
    requires s[0] == '-' ==> AllDigits(s[1..])
    requires s[0] != '-' ==> AllDigits(s)
  {
    if s[0] == '-' then var m: int := ParseNat(s[1..]); -m else ParseNat(s)
  }

  lemma {:induction false} ParseNatText(n: nat)
    ensures ParseNat(NatText(n)) == n
  {
    if n >= 10 {
      var r := NatText(n);
      assert r[..|r| - 1] == NatText(n / 10);
      ParseNatText(n / 10);
    }
  }

  /** Integers render losslessly: the numeral reads back as the same number. */
  lemma ParseIntText(n: int)
    ensures var r := IntText(n);
      && (r[0] == '-' ==> AllDigits(r[1..]))
      && (r[0] != '-' ==> AllDigits(r))
      && ParseInt(r) == n
  {
    var r := IntText(n);
    if n < 0 {
      NegativeText(n);
      ParseNatText(-n);
      assert ParseInt(r) + ParseNat(NatText(-n)) == 0;
    } else {
      NonNegativeText(n);
      ParseNatText(n);
      assert ParseInt(r) == ParseNat(NatText(n));
    }
  }

  lemma NegativeText(n: int)
    requires n < 0
    ensures IntText(n)[0] == '-' && IntText(n)[1..] == NatText(-n)
  {
    var r := IntText(n);
    assert r == "-" + NatText(-n);
  }

  lemma NonNegativeText(n: int)
    requires n >= 0
    ensures IntText(n) == NatText(n) && IntText(n)[0] != '-'
  {
    assert IsDigit(NatText(n)[0]);
  }

  /** Rust's `slice.join(sep)`: the parts in order with `sep` between neighbours. */
  function JoinWith(parts: seq<string>, sep: string): string
  {
    if |parts| == 0 then ""
    else if |parts| == 1 then parts[0]
    else parts[0] + sep + JoinWith(parts[1..], sep)
  }

  /** Joining grows at the end: a part appended to the list lands after one more separator. */
  lemma {:induction false} JoinWithAppend(parts: seq<string>, p: string, sep: string)
    requires |parts| >= 1
    ensures JoinWith(parts + [p], sep) == JoinWith(parts, sep) + sep + p
  {
    if |parts| > 1 {
      assert (parts + [p])[1..] == parts[1..] + [p];
      JoinWithAppend(parts[1..], p, sep);
    }
  }

  predicate StartsWith(s: string, prefix: string) {
    |prefix| <= |s| && s[..|prefix|] == prefix
  }

  /** Rust's `str::contains`: `q` occurs somewhere in `s` (the empty string occurs everywhere). */
  predicate Contains(s: string, q: string)
  {
    StartsWith(s, q) || (|s| > 0 && Contains(s[1..], q))
  }

  /** `q` occurs in `s` starting at index `i`. */
  predicate OccursAt(s: string, q: string, i: int) {
    0 <= i && i + |q| <= |s| && s[i..i + |q|] == q
  }

  lemma {:induction false} ContainsIsOccurrence(s: string, q: string)
    ensures Contains(s, q) <==> exists i :: OccursAt(s, q, i)
  {
    if StartsWith(s, q) {
      assert OccursAt(s, q, 0);
    } else if |s| > 0 {
      ContainsIsOccurrence(s[1..], q);
      if exists i :: OccursAt(s, q, i) {
        var i :| OccursAt(s, q, i);
        assert i != 0;
        assert OccursAt(s[1..], q, i - 1);
      }
      if Contains(s[1..], q) {
        var j :| OccursAt(s[1..], q, j);
        assert s[j + 1..j + 1 + |q|] == s[1..][j..j + |q|];
        assert OccursAt(s, q, j + 1);
      }
    }
  }

  predicate IsAsciiUpper(c: char) {
    'A' <= c <= 'Z'
  }

  predicate IsAsciiLower(c: char) {
    'a' <= c <= 'z'
  }

  function LowerChar(c: char): char {
    if IsAsciiUpper(c) then (c as int + 32) as char else c
  }

  /** Case folding of ASCII letters; every other character is kept. */
  function AsciiLower(s: string): (r: string)
    ensures |r| == |s|
    ensures forall i :: 0 <= i < |s| ==> r[i] == LowerChar(s[i])
  {
    seq(|s|, i requires 0 <= i < |s| => LowerChar(s[i]))
  }

  /** Bytes the UTF-8 encoding of one character takes. */
  function CharUtf8Len(c: char): nat {
    if c as int < 0x80 then 1
    else if c as int < 0x800 then 2
    else if c as int < 0x10000 then 3
    else 4
  }

  /** Rust's `String::len`: the length in UTF-8 bytes, not in characters. */
  function Utf8Len(s: string): (n: nat)
    ensures n >= |s|
    ensures (forall i :: 0 <= i < |s| ==> s[i] as int < 0x80) ==> n == |s|
  {
    if s == [] then 0 else Utf8Len(s[..|s| - 1]) + CharUtf8Len(s[|s| - 1])
  }

  /** Stand-in for Rust's float Display: integral values print as Rust prints
      them ("3", "-1", "0"); other values print their integer part, a point and
      at most six decimals, truncated, without trailing zeros. */
  function FloatText(x: real): string {
    if x < 0.0 then "-" + UnsignedFloatText(-x) else UnsignedFloatText(x)
  }

  function UnsignedFloatText(x: real): string
    requires x >= 0.0
  {
    var whole := x.Floor;
    var digits := TrimZeros(FractionDigits(x - whole as real, 6));
    if digits == "" then NatText(whole) else NatText(whole) + "." + digits
  }

  function FractionDigits(f: real, n: nat): string
    requires 0.0 <= f < 1.0
    decreases n
  {
    if n == 0 || f == 0.0 then ""
    else
      var d := (f * 10.0).Floor;
      [DigitChar(d)] + FractionDigits(f * 10.0 - d as real, n - 1)
  }

  function TrimZeros(s: string): string {
    if s != [] && s[|s| - 1] == '0' then TrimZeros(s[..|s| - 1]) else s
  }
}
