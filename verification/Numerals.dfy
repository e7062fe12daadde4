/**
 64-bit integers as LuaJIT prints them, decimal digits with a suffix, and as the C library reads them
 back from any text: leading space, a sign, digits, range errors, and exactly the suffix left over.
 */
module Numerals {
  import opened Bytes
  import opened Items

  const INT64_END: int := 0x8000_0000_0000_0000
  const UINT64_END: int := 0x1_0000_0000_0000_0000

  const PLUS: byte := 43
  const MINUS: byte := 45
  const ZERO: byte := 48

  predicate IsDigit(b: byte) { ZERO <= b <= ZERO + 9 }

  /** A C string ends at the first zero byte. */
  function CString(text: Bytes): Bytes {
    if text == [] || text[0] == 0 then [] else [text[0]] + CString(text[1..])
  }

  function SkipSpaces(text: Bytes): Bytes {
    if text != [] && IsSpace(text[0]) then SkipSpaces(text[1..]) else text
  }

  /** How many digits a text starts with. */
  function Digits(text: Bytes): (n: nat)
    ensures n <= |text| && (forall i | 0 <= i < n :: IsDigit(text[i])) && (n < |text| ==> !IsDigit(text[n]))
  {
    if text != [] && IsDigit(text[0]) then 1 + Digits(text[1..]) else 0
  }

  /** The number that digits stand for. */
  function Number(digits: Bytes): nat
    requires forall i | 0 <= i < |digits| :: IsDigit(digits[i])
  {
    if digits == [] then 0
    else
      assert IsDigit(digits[|digits| - 1]);
      Number(digits[..|digits| - 1]) * 10 + (digits[|digits| - 1] - ZERO)
  }

  /** A conversion by the C library: the sign, the magnitude and what follows the digits; None without digits. */
  function Scan(text: Bytes): Option<(bool, nat, Bytes)> {
    var t := SkipSpaces(text);
    var signed := t != [] && t[0] in {PLUS, MINUS};
    var u := if signed then t[1..] else t;
    var n := Digits(u);
    if n == 0 then None else Some((signed && t[0] == MINUS, Number(u[..n]), u[n..]))
  }

  function Suffix(signed: bool): Bytes {
    if signed then [76, 76] else [85, 76, 76]
  }

  /** A magnitude in the range of its type; the unsigned conversion negates modulo 2^64. */
  function InRange64(negative: bool, n: nat, signed: bool): Option<int> {
    if signed then
      var v := if negative then 0 - n else n + 0;
      if -INT64_END <= v < INT64_END then Some(v) else None
    else if n >= UINT64_END then None
    else Some(if negative then (UINT64_END - n) % UINT64_END else n)
  }

  /** A whole text that is a number followed by nothing but the suffix of its signedness. */
  function ReadWide(text: Bytes, signed: bool): (r: Option<int>)
    ensures r.Some? ==> if signed then -INT64_END <= r.value < INT64_END else 0 <= r.value < UINT64_END
  {
    var s := Scan(CString(text));
    if s.None? || s.value.2 != Suffix(signed) then None else InRange64(s.value.0, s.value.1, signed)
  }

  // ---- Printing ----

  function PrintNumber(n: nat): (digits: Bytes)
    ensures digits != [] && forall i | 0 <= i < |digits| :: IsDigit(digits[i])
  {
    if n < 10 then [ZERO + n] else PrintNumber(n / 10) + [ZERO + n % 10]
  }

  function PrintWide(n: int, signed: bool): Bytes {
    (if n < 0 then [MINUS] + PrintNumber(-n) else PrintNumber(n)) + Suffix(signed)
  }

  lemma {:induction false} NumberPrinted(n: nat)
    ensures Number(PrintNumber(n)) == n
  {
    var digits := PrintNumber(n);
    if n >= 10 {
      NumberPrinted(n / 10);
      assert digits[..|digits| - 1] == PrintNumber(n / 10);
    } else {
      assert digits[..0] == [];
    }
  }

  lemma {:induction false} DigitsThen(digits: Bytes, rest: Bytes)
    requires forall i | 0 <= i < |digits| :: IsDigit(digits[i])
    requires rest != [] && !IsDigit(rest[0])
    ensures Digits(digits + rest) == |digits|
  {
    if digits != [] {
      assert (digits + rest)[1..] == digits[1..] + rest;
      DigitsThen(digits[1..], rest);
    }
  }

  lemma {:induction false} NoZero(text: Bytes)
    requires 0 !in text
    ensures CString(text) == text
  {
    if text != [] {
      assert forall b | b in text[1..] :: b in text;
      NoZero(text[1..]);
    }
  }

  lemma {:induction false} ScanPrinted(n: nat, rest: Bytes, negative: bool)
    requires rest != [] && !IsDigit(rest[0])
    ensures Scan((if negative then [MINUS] else []) + PrintNumber(n) + rest) == Some((negative, n, rest))
  {
    hide Digits;
    var digits := PrintNumber(n);
    var text := (if negative then [MINUS] else []) + digits + rest;
    var u := digits + rest;
    assert text == if negative then [MINUS] + u else u;
    assert u[0] == digits[0] && IsDigit(u[0]);
    DigitsThen(digits, rest);
    NumberPrinted(n);
    assert u[..|digits|] == digits && u[|digits|..] == rest;
    if negative {
      assert text[1..] == u;
    }
  }

  /** A printed 64-bit integer reads back as itself where its own signedness is asked for, and nowhere else. */
  lemma {:induction false} PrintedReads(n: int, signed: bool, wanted: bool)
    requires if signed then -INT64_END <= n < INT64_END else 0 <= n < UINT64_END
    ensures ReadWide(PrintWide(n, signed), wanted) == if signed == wanted then Some(n) else None
  {
    hide PrintNumber;
    var negative, magnitude: nat := n < 0, if n < 0 then -n else n;
    var digits, suffix := PrintNumber(magnitude), Suffix(signed);
    var text := PrintWide(n, signed);
    assert text == (if negative then [MINUS] else []) + digits + suffix;
    forall b | b in text
      ensures b != 0
    {
      assert b == MINUS || b in digits || b in suffix;
      if b in digits {
        var i :| 0 <= i < |digits| && digits[i] == b;
        assert IsDigit(digits[i]);
      }
    }
    NoZero(text);
    ScanPrinted(magnitude, suffix, negative);
    assert |Suffix(true)| != |Suffix(false)|;
  }
}
