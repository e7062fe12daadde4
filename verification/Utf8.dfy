/**
 The UTF-8 validator and the truncation helper. The reference is the encoding of RFC 3629
 (section 3 gives the encoding, section 4 the syntax of byte sequences); the program further
 excludes U+0000 so that accepted text is NUL-free.
 */
module Utf8 {
  import opened Bytes

  predicate IsScalar(c: int) {
    1 <= c <= 0x10FFFF && !(0xD800 <= c <= 0xDFFF)
  }

  /** The n continuation bytes that carry the low 6n bits of c, most significant first. */
  function Tail(c: nat, n: nat): (t: Bytes)
    ensures |t| == n && forall i | 0 <= i < n :: Continuation(t[i])
  {
    if n == 0 then [] else Tail(c / 64, n - 1) + [0x80 + c % 64]
  }

  /** What is left of c above its low 6n bits. */
  function Top(c: nat, n: nat): nat {
    if n == 0 then c else Top(c / 64, n - 1)
  }

  function Continuations(c: int): int {
    if c < 0x80 then 0 else if c < 0x800 then 1 else if c < 0x10000 then 2 else 3
  }

  /** The lead byte bits that announce n continuation bytes. */
  function Marker(n: int): int {
    if n == 0 then 0 else if n == 1 then 0xC0 else if n == 2 then 0xE0 else 0xF0
  }

  /** The encoding of one scalar value: the table in section 3 of RFC 3629. */
  function Encode(c: int): (e: Bytes)
    requires IsScalar(c)
    ensures |e| == 1 + Continuations(c) && e[0] != 0
  {
    var n := Continuations(c);
    TopBound(c);
    [Marker(n) + Top(c, n)] + Tail(c, n)
  }

  lemma {:induction false} TopBound(c: nat)
    requires c <= 0x10FFFF
    ensures var n := Continuations(c);
            && (n == 0 ==> Top(c, n) == c < 0x80) && (n == 1 ==> Top(c, n) < 32)
            && (n == 2 ==> Top(c, n) < 16) && (n == 3 ==> Top(c, n) < 8)
  {
    if Continuations(c) == 1 {
      assert Top(c, 1) == Top(c / 64, 0);
    } else if Continuations(c) == 2 {
      assert Top(c, 2) == Top(c / 64, 1) == Top(c / 64 / 64, 0);
    } else if Continuations(c) == 3 {
      assert Top(c, 3) == Top(c / 64, 2) == Top(c / 64 / 64, 1) == Top(c / 64 / 64 / 64, 0);
    }
  }

  ghost predicate Scalars(cs: seq<int>) {
    forall i | 0 <= i < |cs| :: IsScalar(cs[i])
  }

  function EncodeAll(cs: seq<int>): Bytes
    requires forall i | 0 <= i < |cs| :: IsScalar(cs[i])
  {
    if cs == [] then [] else Encode(cs[0]) + EncodeAll(cs[1..])
  }

  /** Text is well formed when it is a concatenation of encoded scalar values. */
  ghost predicate WellFormed(text: Bytes) {
    exists cs :: Scalars(cs) && text == EncodeAll(cs)
  }

  predicate Continuation(b: byte) { 0x80 <= b <= 0xBF }

  /** How many continuation bytes a lead byte announces; 4 marks a byte that leads nothing. */
  function Announced(first: byte): int {
    if 0xC0 <= first < 0xE0 then 1
    else if 0xE0 <= first < 0xF0 then 2
    else if 0xF0 <= first < 0xF8 then 3
    else 4
  }

  function Payload(first: byte): int {
    if first < 0xE0 then first % 32 else if first < 0xF0 then first % 16 else first % 8
  }

  function Smallest(count: int): int {
    if count == 1 then 0x80 else if count == 2 then 0x800 else 0x10000
  }

  /** Six payload bits of each continuation byte appended to the lead payload. */
  function Accumulate(start: int, rest: Bytes): int {
    if rest == [] then start else Accumulate(start, rest[..|rest| - 1]) * 64 + rest[|rest| - 1] % 64
  }

  /** Well-formed text starts with the encoding of one scalar value. */
  lemma {:induction false} FirstScalar(text: Bytes) returns (c: int)
    requires WellFormed(text) && text != []
    ensures IsScalar(c) && Encode(c) <= text && WellFormed(text[|Encode(c)|..])
    ensures text[1..|Encode(c)|] == Encode(c)[1..]
  {
    var cs :| Scalars(cs) && text == EncodeAll(cs);
    c := cs[0];
    assert text[|Encode(c)|..] == EncodeAll(cs[1..]);
    assert Scalars(cs[1..]);
  }

  lemma {:induction false} Prepend(c: int, rest: Bytes)
    requires IsScalar(c) && WellFormed(rest)
    ensures WellFormed(Encode(c) + rest)
  {
    var cs :| Scalars(cs) && rest == EncodeAll(cs);
    assert ([c] + cs)[1..] == cs;
    assert EncodeAll([c] + cs) == Encode(c) + rest;
    assert Scalars([c] + cs);
  }

  lemma {:induction false} AccumulateInvertsSplit(c: nat, n: nat)
    ensures Accumulate(Top(c, n), Tail(c, n)) == c
  {
    if n > 0 {
      AccumulateInvertsSplit(c / 64, n - 1);
      assert Tail(c, n)[..n - 1] == Tail(c / 64, n - 1);
    }
  }

  lemma {:induction false} SplitInvertsAccumulate(start: nat, rest: Bytes)
    requires forall i | 0 <= i < |rest| :: Continuation(rest[i])
    ensures var c := Accumulate(start, rest); c >= 0 && Top(c, |rest|) == start && Tail(c, |rest|) == rest
  {
    if rest != [] {
      var n := |rest| - 1;
      var high := Accumulate(start, rest[..n]);
      SplitInvertsAccumulate(start, rest[..n]);
      assert Accumulate(start, rest) == high * 64 + rest[n] % 64;
      assert (high * 64 + rest[n] % 64) / 64 == high;
      assert rest == rest[..n] + [rest[n]];
    }
  }

  lemma {:induction false} AccumulateBounds(start: nat, rest: Bytes)
    ensures Accumulate(start, rest) >= 0
    ensures |rest| == 1 ==> start * 64 <= Accumulate(start, rest) < (start + 1) * 64
    ensures |rest| == 2 ==> start * 4096 <= Accumulate(start, rest) < (start + 1) * 4096
  {
    if rest != [] {
      AccumulateBounds(start, rest[..|rest| - 1]);
      if |rest| == 1 { assert Accumulate(start, []) == start; }
    }
  }

  /** What a decoder reads back from the encoding of a scalar value of two or more bytes. */
  lemma {:induction false} EncodingShape(c: int)
    requires IsScalar(c) && c >= 0x80
    ensures var e := Encode(c); var n := Continuations(c);
            && e[0] >= 0x80 && n == Announced(e[0])
            && (forall i | 1 <= i <= n :: Continuation(e[i]))
            && Payload(e[0]) >= 0 && Accumulate(Payload(e[0]), e[1..]) == c && Smallest(n) <= c
  {
    var n := Continuations(c);
    TopBound(c);
    AccumulateInvertsSplit(c, n);
    assert Encode(c)[1..] == Tail(c, n);
  }

  /** A sequence that passes every check of the decoder is the encoding of what it decodes to. */
  lemma {:induction false} DecodedIsEncoding(e: Bytes)
    requires 2 <= |e| <= 4 && e[0] >= 0x80 && Announced(e[0]) == |e| - 1
    requires forall i | 1 <= i < |e| :: Continuation(e[i])
    requires var c := Accumulate(Payload(e[0]), e[1..]); IsScalar(c) && Smallest(|e| - 1) <= c
    ensures Encode(Accumulate(Payload(e[0]), e[1..])) == e
  {
    hide Accumulate;
    var n, lead := |e| - 1, Payload(e[0]);
    var c := Accumulate(lead, e[1..]);
    assert e[0] == Marker(n) + lead;
    assert Continuations(c) == n by {
      AccumulateBounds(lead, e[1..]);
    }
    SplitInvertsAccumulate(lead, e[1..]);
    assert Encode(c) == [Marker(n) + lead] + e[1..];
  }

  /** Skipping an encoded scalar value changes nothing about the rest. */
  lemma {:induction false} StepOver(text: Bytes, start: nat, end: nat, c: int)
    requires start <= end <= |text| && IsScalar(c) && Encode(c) == text[start..end]
    ensures WellFormed(text[start..]) <==> WellFormed(text[end..])
  {
    var here, rest := text[start..], text[end..];
    assert here == Encode(c) + rest;
    if WellFormed(rest) {
      Prepend(c, rest);
    }
    if WellFormed(here) {
      var d := FirstScalar(here);
      SameFirst(here, c, d);
      assert here[|Encode(c)|..] == rest;
    }
  }

  /** The code is prefix free: one text cannot start with two encodings. */
  lemma {:induction false} SameFirst(text: Bytes, c: int, d: int)
    requires IsScalar(c) && IsScalar(d) && Encode(c) <= text && Encode(d) <= text
    ensures c == d
  {
    if c >= 0x80 { EncodingShape(c); }
    if d >= 0x80 { EncodingShape(d); }
    assert Encode(c)[0] == Encode(d)[0];
    assert |Encode(c)| == |Encode(d)|;
    assert Encode(c) == Encode(d);
  }

  lemma {:induction false} EmptyIsWellFormed()
    ensures WellFormed([])
  {
    assert Scalars([]) && EncodeAll([]) == [];
  }

  lemma {:induction false} RejectedZero(text: Bytes)
    requires text != [] && text[0] == 0
    ensures !WellFormed(text)
  {
    if WellFormed(text) {
      var c := FirstScalar(text);
    }
  }

  lemma {:induction false} RejectedLead(text: Bytes)
    requires text != [] && text[0] >= 0x80
    requires Announced(text[0]) == 4 || Announced(text[0]) > |text| - 1
    ensures !WellFormed(text)
  {
    if WellFormed(text) {
      var c := FirstScalar(text);
      if c >= 0x80 { EncodingShape(c); }
    }
  }

  lemma {:induction false} RejectedTail(text: Bytes, at: nat)
    requires text != [] && text[0] >= 0x80 && 1 <= at <= Announced(text[0]) < |text|
    requires !Continuation(text[at])
    ensures !WellFormed(text)
  {
    if WellFormed(text) {
      var c := FirstScalar(text);
      if c >= 0x80 { EncodingShape(c); }
    }
  }

  lemma {:induction false} RejectedValue(text: Bytes, start: nat, end: nat)
    requires start < end <= |text| && text[start] >= 0x80 && Announced(text[start]) == end - start - 1
    requires var c := Accumulate(Payload(text[start]), text[start + 1..end]);
             c < Smallest(end - start - 1) || !IsScalar(c)
    ensures !WellFormed(text[start..])
  {
    assert text[start..][1..end - start] == text[start + 1..end];
    if WellFormed(text[start..]) {
      var c := FirstScalar(text[start..]);
      if c >= 0x80 { EncodingShape(c); }
    }
  }

  /** The continuation bytes of one character, up to the first byte that is none. */
  method ReadTail(text: Bytes, start: nat, count: nat, lead: nat) returns (ok: bool, codepoint: nat, index: nat)
    requires start + count <= |text|
    ensures if ok then index == start + count else start <= index < start + count && !Continuation(text[index])
    ensures forall i | start <= i < index :: Continuation(text[i])
    ensures ok ==> codepoint == Accumulate(lead, text[start..index])
  {
    codepoint, index := lead, start;
    for done := 0 to count
      invariant index == start + done && codepoint == Accumulate(lead, text[start..index])
      invariant forall i | start <= i < index :: Continuation(text[i])
    {
      var next := text[index];
      if !(0x80 <= next < 0xC0) {
        return false, codepoint, index;
      }
      assert text[start..index + 1][..done] == text[start..index];
      index := index + 1;
      codepoint := codepoint * 64 + next % 64;
    }
    return true, codepoint, index;
  }

  /** The validator: true exactly on well-formed, NUL-free text. */
  method ValidUtf8(text: Bytes) returns (ok: bool)
    ensures ok <==> WellFormed(text)
  {
    var index := 0;
    while index < |text|
      invariant 0 <= index <= |text|
      invariant WellFormed(text) <==> WellFormed(text[index..])
    {
      ghost var start := index;
      var first := text[index];
      index := index + 1;
      if first == 0 {
        RejectedZero(text[start..]);
        return false;
      }
      if first < 0x80 {
        StepOver(text, start, index, first);
        continue;
      }
      var count: nat, codepoint: nat, minimum: nat;
      if 0xC0 <= first < 0xE0 {
        count, codepoint, minimum := 1, first % 32, 0x80;
      } else if 0xE0 <= first < 0xF0 {
        count, codepoint, minimum := 2, first % 16, 0x800;
      } else if 0xF0 <= first < 0xF8 {
        count, codepoint, minimum := 3, first % 8, 0x10000;
      } else {
        RejectedLead(text[start..]);
        return false;
      }
      if count > |text| - index {
        RejectedLead(text[start..]);
        return false;
      }
      var read;
      read, codepoint, index := ReadTail(text, index, count, codepoint);
      if !read {
        RejectedTail(text[start..], index - start);
        return false;
      }
      if codepoint < minimum || codepoint > 0x10FFFF || 0xD800 <= codepoint <= 0xDFFF {
        RejectedValue(text, start, index);
        return false;
      }
      assert text[start..index][1..] == text[start + 1..index];
      DecodedIsEncoding(text[start..index]);
      StepOver(text, start, index, codepoint);
    }
    EmptyIsWellFormed();
    assert text[|text|..] == [];
    return true;
  }

  lemma {:induction false} PrependCut(text: Bytes, c: int, k: nat)
    requires IsScalar(c) && Encode(c) <= text && |Encode(c)| + k <= |text|
    requires WellFormed(text[|Encode(c)|..][..k])
    ensures WellFormed(text[..|Encode(c)| + k])
  {
    Prepend(c, text[|Encode(c)|..][..k]);
    assert text[..|Encode(c)| + k] == Encode(c) + text[|Encode(c)|..][..k];
  }

  /** How many bytes at the end of a cut text belong to an incomplete character. */
  lemma {:induction false} CutLosesAtMostThree(text: Bytes, len: nat) returns (keep: nat)
    requires WellFormed(text) && len <= |text|
    ensures keep <= len <= keep + 3 && WellFormed(text[..keep])
    decreases len
  {
    keep := 0;
    if len == 0 {
      EmptyIsWellFormed();
    } else {
      var c := FirstScalar(text);
      var n := |Encode(c)|;
      if len < n {
        EmptyIsWellFormed();
      } else {
        var k := CutLosesAtMostThree(text[n..], len - n);
        keep := n + k;
        PrependCut(text, c, k);
      }
    }
  }

  lemma {:induction false} CutOfText(whole: Bytes, text: Bytes) returns (keep: nat)
    requires WellFormed(whole) && text <= whole
    ensures keep <= |text| <= keep + 3 && WellFormed(text[..keep])
  {
    keep := CutLosesAtMostThree(whole, |text|);
    assert whole[..keep] == text[..keep];
  }

  /** Cutting a truncated read back to the last complete character. */
  method Utf8Prefix(text: Bytes) returns (keep: nat)
    ensures keep <= |text| && WellFormed(text[..keep])
    ensures forall n | keep < n <= |text| && n + 3 >= |text| :: !WellFormed(text[..n])
    ensures |text| <= keep + 3 || keep == 0
    // Cutting well-formed text anywhere loses at most the three bytes of an unfinished character.
    ensures (exists whole :: WellFormed(whole) && text <= whole) ==> |text| <= keep + 3
  {
    var trim := 0;
    while trim < 4 && trim <= |text|
      invariant 0 <= trim <= 4 && trim <= |text| + 1
      invariant forall n | |text| - trim < n <= |text| :: !WellFormed(text[..n])
    {
      var valid := ValidUtf8(text[..|text| - trim]);
      if valid {
        return |text| - trim;
      }
      trim := trim + 1;
    }
    keep := 0;
    if whole :| WellFormed(whole) && text <= whole {
      var k := CutOfText(whole, text);
      assert false;
    }
    EmptyIsWellFormed();
    assert text[..0] == [];
  }
}
