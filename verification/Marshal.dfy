/**
 Validating, encoding and decoding Lua values against D-Bus types. A message is a sequence of tokens:
 basic data, and containers that open with the text of their contents and close. The text of a valid
 signature determines its type tree (module Signatures), so the three walks follow the tree.
 */
module Marshals {
  import opened Bytes
  import opened Items
  import opened Signatures
  import Numerals
  import Utf8

  const MESSAGE_LIMIT: nat := 1048576
  const VALUE_LIMIT: nat := 65536
  const CONTENTS_SIZE: nat := 256
  const EXACT: int := 9007199254740991

  /** A Lua number: a whole one, or anything else, left opaque. */
  datatype Number = Whole(n: int) | Other(bits: int)

  datatype Value =
    | Num(number: Number)
    | Wide(signed: bool, n: int)
    | Bool(b: bool)
    | Str(text: Bytes)
    | Table(items: seq<Value>, dense: bool)
    | Boxed(signature: string, value: Value)
    | Absent

  datatype Payload = Bits(n: int) | Flag(b: bool) | Real(number: Number) | Text(text: Bytes)

  datatype Token = Datum(code: char, payload: Payload) | Open(container: char, contents: string) | Close

  /** How numbers print, and which object paths are valid. */
  datatype Env = Env(numberText: Number -> Bytes, pathOk: Bytes -> bool)

  // ---- Basic values ----

  predicate InRange(code: char, n: int) {
    match code
    case 'y' => 0 <= n < 0x100
    case 'n' => -0x8000 <= n < 0x8000
    case 'q' => 0 <= n < 0x1_0000
    case 'i' => -0x8000_0000 <= n < 0x8000_0000
    case 'u' => 0 <= n < 0x1_0000_0000
    case 'x' => -0x8000_0000_0000_0000 <= n < 0x8000_0000_0000_0000
    case 't' => 0 <= n < 0x1_0000_0000_0000_0000
    case _ => false
  }

  /** The conversion to the C type of a code: truncation to its width, in two's complement. */
  function Cast(code: char, n: int): int {
    match code
    case 'y' => n % 0x100
    case 'n' => (n + 0x8000) % 0x1_0000 - 0x8000
    case 'q' => n % 0x1_0000
    case 'i' => (n + 0x8000_0000) % 0x1_0000_0000 - 0x8000_0000
    case 'u' => n % 0x1_0000_0000
    case 'x' => (n + 0x8000_0000_0000_0000) % 0x1_0000_0000_0000_0000 - 0x8000_0000_0000_0000
    case 't' => n % 0x1_0000_0000_0000_0000
    case _ => n
  }

  lemma {:induction false} CastKeeps(code: char, n: int)
    requires InRange(code, n)
    ensures Cast(code, n) == n
  {
  }

  predicate Small(code: char) { code in "ynqiu" }

  predicate Big(code: char) { code in "xt" }

  predicate Textual(code: char) { code in "sog" }

  /** What tostring gives: strings themselves and 64-bit integers in print; everything else prints as words. */
  function Printed(v: Value): Bytes {
    match v
    case Str(text) => text
    case Wide(signed, n) => if InRange(if signed then 'x' else 't', n) then Numerals.PrintWide(n, signed) else []
    case _ => []
  }

  /** An exact number, or anything that prints as a 64-bit integer with the suffix of the wanted signedness. */
  function ExactInteger(v: Value, signed: bool): (r: Option<int>)
    ensures r.Some? ==> InRange(if signed then 'x' else 't', r.value)
  {
    match v
    case Num(Whole(n)) => if -EXACT <= n <= EXACT && (signed || n >= 0) then Some(n) else None
    case Num(_) => None
    case _ => Numerals.ReadWide(Printed(v), signed)
  }

  /** A 64-bit integer stands for itself where its signedness is asked for, and so does a string that prints like it. */
  lemma {:induction false} WideIsExact(s: bool, n: int, signed: bool)
    requires InRange(if s then 'x' else 't', n)
    ensures ExactInteger(Wide(s, n), signed) == if s == signed then Some(n) else None
    ensures ExactInteger(Str(Numerals.PrintWide(n, s)), signed) == if s == signed then Some(n) else None
  {
    Numerals.PrintedReads(n, s, signed);
  }

  /** Strings, and numbers as Lua prints them. */
  function TextOf(env: Env, v: Value): Option<Bytes> {
    match v
    case Str(text) => Some(text)
    case Num(number) => Some(env.numberText(number))
    case _ => None
  }

  function AsText(b: Bytes): string {
    seq(|b|, i requires 0 <= i < |b| => b[i] as char)
  }

  ghost predicate GoodText(env: Env, code: char, text: Bytes) {
    && |text| <= MESSAGE_LIMIT && 0 !in text
    && (code == 's' ==> Utf8.WellFormed(text))
    && (code == 'o' ==> env.pathOk(text))
    && (code == 'g' ==> exists ts :: SignatureOf(AsText(text), ts))
  }

  ghost predicate BasicFits(env: Env, code: char, v: Value) {
    if Small(code) then v.Num? && v.number.Whole? && InRange(code, v.number.n)
    else if Big(code) then ExactInteger(v, code == 'x').Some?
    else if code == 'b' then v.Bool?
    else if code == 'd' then v.Num?
    else Textual(code) && TextOf(env, v).Some? && GoodText(env, code, TextOf(env, v).value)
  }

  function EncodeBasic(env: Env, code: char, v: Value): Option<Payload> {
    if Small(code) then
      if v.Num? && v.number.Whole? then Some(Bits(Cast(code, v.number.n))) else None
    else if Big(code) then
      var n := ExactInteger(v, code == 'x');
      if n.Some? then Some(Bits(Cast(code, n.value))) else None
    else if code == 'b' then
      if v.Bool? then Some(Flag(v.b)) else None
    else if code == 'd' then
      if v.Num? then Some(Real(v.number)) else None
    else if TextOf(env, v).Some? then Some(Text(TextOf(env, v).value))
    else None
  }

  ghost function DecodeBasic(code: char, p: Payload): Option<Value> {
    if Small(code) then
      if p.Bits? then Some(Num(Number.Whole(p.n))) else None
    else if Big(code) then
      if p.Bits? then Some(Wide(code == 'x', p.n)) else None
    else if code == 'b' then
      if p.Flag? then Some(Bool(p.b)) else None
    else if code == 'd' then
      if p.Real? then Some(Num(p.number)) else None
    else if p.Text? && |p.text| <= MESSAGE_LIMIT && (code == 's' ==> Utf8.WellFormed(p.text)) then Some(Str(p.text))
    else None
  }

  /** What a basic value reads back as: 64-bit integers as such, and numbers given as text as that text. */
  function CanonBasic(env: Env, code: char, v: Value): Value {
    if Big(code) && ExactInteger(v, code == 'x').Some? then Wide(code == 'x', ExactInteger(v, code == 'x').value)
    else if Textual(code) && TextOf(env, v).Some? then Str(TextOf(env, v).value)
    else v
  }

  lemma {:induction false} BasicTravels(env: Env, code: char, v: Value)
    requires BasicFits(env, code, v)
    ensures EncodeBasic(env, code, v).Some?
    ensures DecodeBasic(code, EncodeBasic(env, code, v).value) == Some(CanonBasic(env, code, v))
  {
    if Small(code) {
      CastKeeps(code, v.number.n);
    } else if Big(code) {
      var n := ExactInteger(v, code == 'x').value;
      CastKeeps(code, n);
    }
  }

  // ---- Types of variants ----

  /** The single complete type of a variant's signature. */
  function OnlyType(signature: string): Option<Type> {
    if |signature| > SIGNATURE_MAX then None
    else match ParseAll(signature, 0)
      case Some(Cons(t, Nil)) => Some(t)
      case _ => None
  }

  lemma {:induction false} OnlyTypeIsGood(signature: string)
    requires OnlyType(signature).Some?
    ensures var t := OnlyType(signature).value;
            Good(t, false) && Print(t) == signature && |signature| <= SIGNATURE_MAX
  {
    AllIsSound(signature, 0);
    assert signature[0..] == signature;
    assert Print(OnlyType(signature).value) + "" == Print(OnlyType(signature).value);
  }

  function EntryFields(t: Type): Types
    requires t.Entry?
  {
    Cons(Basic(t.key), Cons(t.value, Nil))
  }

  // ---- Validating ----

  /** The running value count after a valid value; None refuses it. */
  ghost function Validate(env: Env, t: Type, v: Value, depth: nat, count: nat): (r: Option<nat>)
    ensures r.Some? ==> count < r.value <= VALUE_LIMIT
    decreases v, 2, 0
  {
    if depth > CONTAINER_DEPTH || count + 1 > VALUE_LIMIT then None
    else match t
      case Basic(code) => if BasicFits(env, code, v) then Some(count + 1) else None
      case Variant =>
        if !v.Boxed? || OnlyType(v.signature).None? then None
        else Validate(env, OnlyType(v.signature).value, v.value, depth + 1, count + 1)
      case Array(element) =>
        if element == Basic('y') && v.Str? then
          if |v.text| <= MESSAGE_LIMIT then Some(count + 1) else None
        else if !v.Table? || !v.dense then None
        else ValidateItems(env, element, v, 0, depth + 1, count + 1)
      case Struct(fields) => ValidateFields(env, fields, v, 0, depth + 1, count + 1)
      case Entry(_, _) => ValidateFields(env, EntryFields(t), v, 0, depth + 1, count + 1)
  }

  ghost function ValidateItems(env: Env, t: Type, v: Value, i: nat, depth: nat, count: nat): (r: Option<nat>)
    requires v.Table? && i <= |v.items|
    ensures r.Some? && count <= VALUE_LIMIT ==> count + (|v.items| - i) <= r.value <= VALUE_LIMIT
    decreases v, 1, |v.items| - i
  {
    if i == |v.items| then Some(count)
    else
      var first := Validate(env, t, v.items[i], depth, count);
      if first.None? then None else ValidateItems(env, t, v, i + 1, depth, first.value)
  }

  /** One item for every type, none missing, and no more. */
  ghost function ValidateFields(env: Env, ts: Types, v: Value, i: nat, depth: nat, count: nat): (r: Option<nat>)
    ensures r.Some? && count <= VALUE_LIMIT ==> count <= r.value <= VALUE_LIMIT
    decreases v, 1, if v.Table? && i <= |v.items| then |v.items| - i else 0
  {
    if !v.Table? then None
    else if ts == Nil then
      if i == |v.items| && v.dense then Some(count) else None
    else if i >= |v.items| || v.items[i] == Absent then None
    else
      var first := Validate(env, ts.head, v.items[i], depth, count);
      if first.None? then None else ValidateFields(env, ts.tail, v, i + 1, depth, first.value)
  }

  // ---- Encoding ----

  /** An encoding, a refusal, or a write past the end of the fixed contents buffer. */
  datatype Encoding = Encoded(tokens: seq<Token>) | Refused | Overrun

  function Then(a: Encoding, b: Encoding): Encoding {
    if a.Encoded? && b.Encoded? then Encoded(a.tokens + b.tokens) else if a.Encoded? then b else a
  }

  function BytesTokens(text: Bytes): (tokens: seq<Token>)
    ensures |tokens| == |text|
  {
    seq(|text|, i requires 0 <= i < |text| => Datum('y', Bits(text[i])))
  }

  /** A container: the text of its contents is copied into the fixed buffer first. */
  function Container(code: char, contents: string, inside: Encoding): Encoding {
    if |contents| + 1 > CONTENTS_SIZE then Overrun
    else if inside.Encoded? then Encoded([Open(code, contents)] + inside.tokens + [Close])
    else inside
  }

  function Encode(env: Env, t: Type, v: Value): Encoding
    decreases v, 2, 0
  {
    match t
    case Basic(code) =>
      var p := EncodeBasic(env, code, v);
      if p.Some? then Encoded([Datum(code, p.value)]) else Refused
    case Variant =>
      if !v.Boxed? || OnlyType(v.signature).None? then Refused
      else
        var inside := Encode(env, OnlyType(v.signature).value, v.value);
        if inside.Encoded? then Encoded([Open('v', v.signature)] + inside.tokens + [Close]) else inside
    case Array(element) =>
      if |Print(element)| + 1 > CONTENTS_SIZE then Overrun
      else if element == Basic('y') && v.Str? then Encoded([Open('a', "y")] + BytesTokens(v.text) + [Close])
      else if !v.Table? then Refused
      else Container('a', Print(element), EncodeItems(env, element, v, 0))
    case Struct(fields) => Container('r', PrintAll(fields), EncodeFields(env, fields, v, 0))
    case Entry(_, _) => Container('e', PrintAll(EntryFields(t)), EncodeFields(env, EntryFields(t), v, 0))
  }

  function EncodeItems(env: Env, t: Type, v: Value, i: nat): Encoding
    requires v.Table? && i <= |v.items|
    decreases v, 1, |v.items| - i
  {
    if i == |v.items| then Encoded([]) else Then(Encode(env, t, v.items[i]), EncodeItems(env, t, v, i + 1))
  }

  function EncodeFields(env: Env, ts: Types, v: Value, i: nat): Encoding
    decreases v, 1, if v.Table? && i <= |v.items| then |v.items| - i else 0
  {
    if ts == Nil then Encoded([])
    else if !v.Table? || i >= |v.items| then Refused
    else Then(Encode(env, ts.head, v.items[i]), EncodeFields(env, ts.tail, v, i + 1))
  }

  // ---- Decoding ----

  /** A decoded value, the rest of the message, and the running value count. */
  datatype Decoded = Decoded(value: Value, rest: seq<Token>, count: nat)

  datatype DecodedItems = DecodedItems(items: seq<Value>, rest: seq<Token>, count: nat)

  /** What a reader got, a refusal, or a write past the end of its contents buffer. */
  datatype Reading<+T> = Got(value: T) | Unread | Overran

  function Failure<T, U>(r: Reading<T>): Reading<U> {
    if r.Overran? then Overran else Unread
  }

  /** Reading a whole byte array, up to the end of its container. */
  function ReadBytes(msg: seq<Token>): (r: Option<(Bytes, seq<Token>)>)
    ensures r.Some? ==> |r.value.1| < |msg|
  {
    if msg == [] then None
    else if msg[0] == Close then Some(([], msg[1..]))
    else if msg[0].Datum? && msg[0].code == 'y' && msg[0].payload.Bits? && InRange('y', msg[0].payload.n) then
      var more := ReadBytes(msg[1..]);
      if more.None? then None else Some(([msg[0].payload.n as byte] + more.value.0, more.value.1))
    else None
  }

  ghost function Decode(env: Env, t: Type, msg: seq<Token>, depth: nat, count: nat): (r: Reading<Decoded>)
    ensures r.Got? ==> |r.value.rest| < |msg|
    decreases |msg|, 0
  {
    if depth > CONTAINER_DEPTH || count + 1 > VALUE_LIMIT || msg == [] then Unread
    else match t
      case Basic(code) =>
        if !msg[0].Datum? || msg[0].code != code || DecodeBasic(code, msg[0].payload).None? then Unread
        else Got(Decoded(DecodeBasic(code, msg[0].payload).value, msg[1..], count + 1))
      case Variant =>
        if !msg[0].Open? || msg[0].container != 'v' || OnlyType(msg[0].contents).None? then Unread
        else
          var inner := Decode(env, OnlyType(msg[0].contents).value, msg[1..], depth + 1, count + 1);
          if !inner.Got? then Failure(inner)
          else if inner.value.rest == [] || inner.value.rest[0] != Close then Unread
          else Got(Decoded(Boxed(msg[0].contents, inner.value.value), inner.value.rest[1..], inner.value.count))
      case Array(element) =>
        if |Print(element)| + 1 > CONTENTS_SIZE then Overran
        else if msg[0] != Open('a', Print(element)) then Unread
        else if element == Basic('y') then
          var bytes := ReadBytes(msg[1..]);
          if bytes.None? || |bytes.value.0| > MESSAGE_LIMIT then Unread
          else Got(Decoded(Str(bytes.value.0), bytes.value.1, count + 1))
        else Closed(DecodeItems(env, element, msg[1..], depth + 1, count + 1))
      case Struct(fields) =>
        if |PrintAll(fields)| + 1 > CONTENTS_SIZE then Overran
        else if msg[0] != Open('r', PrintAll(fields)) then Unread
        else Closed(DecodeFields(env, fields, msg[1..], depth + 1, count + 1))
      case Entry(_, _) =>
        if |PrintAll(EntryFields(t))| + 1 > CONTENTS_SIZE then Overran
        else if msg[0] != Open('e', PrintAll(EntryFields(t))) then Unread
        else Closed(DecodeFields(env, EntryFields(t), msg[1..], depth + 1, count + 1))
  }

  /** Leaving a container, whose end must be next. */
  function Closed(inside: Reading<DecodedItems>): Reading<Decoded> {
    if !inside.Got? then Failure(inside)
    else if inside.value.rest == [] || inside.value.rest[0] != Close then Unread
    else Got(Decoded(Table(inside.value.items, true), inside.value.rest[1..], inside.value.count))
  }

  ghost function DecodeItems(env: Env, t: Type, msg: seq<Token>, depth: nat, count: nat): (r: Reading<DecodedItems>)
    ensures r.Got? ==> |r.value.rest| <= |msg|
    decreases |msg|, 1
  {
    if msg == [] then Unread
    else if msg[0] == Close then Got(DecodedItems([], msg, count))
    else
      var first := Decode(env, t, msg, depth, count);
      if !first.Got? then Failure(first)
      else
        var more := DecodeItems(env, t, first.value.rest, depth, first.value.count);
        if !more.Got? then more
        else Got(DecodedItems([first.value.value] + more.value.items, more.value.rest, more.value.count))
  }

  ghost function DecodeFields(env: Env, ts: Types, msg: seq<Token>, depth: nat, count: nat): (r: Reading<DecodedItems>)
    ensures r.Got? ==> |r.value.rest| <= |msg|
    decreases |msg|, 1
  {
    if ts == Nil then Got(DecodedItems([], msg, count))
    else
      var first := Decode(env, ts.head, msg, depth, count);
      if !first.Got? then Failure(first)
      else
        var more := DecodeFields(env, ts.tail, first.value.rest, depth, first.value.count);
        if !more.Got? then more
        else Got(DecodedItems([first.value.value] + more.value.items, more.value.rest, more.value.count))
  }

  // ---- What comes back ----

  /** The bytes of a table of byte values. */
  function AsBytes(items: seq<Value>): Bytes {
    seq(|items|, i requires 0 <= i < |items| =>
          if items[i].Num? && items[i].number.Whole? && InRange('y', items[i].number.n) then items[i].number.n else 0)
  }

  /** The value that decoding gives back: the value itself, up to byte tables becoming byte strings. */
  function Canon(env: Env, t: Type, v: Value): Value
    decreases v, 2, 0
  {
    match t
    case Basic(code) => CanonBasic(env, code, v)
    case Variant =>
      if v.Boxed? && OnlyType(v.signature).Some? then
        Boxed(v.signature, Canon(env, OnlyType(v.signature).value, v.value))
      else v
    case Array(element) =>
      if !v.Table? then v
      else if element == Basic('y') then Str(AsBytes(v.items))
      else Table(CanonItems(env, element, v, 0), true)
    case Struct(fields) => if v.Table? then Table(CanonFields(env, fields, v, 0), true) else v
    case Entry(_, _) => if v.Table? then Table(CanonFields(env, EntryFields(t), v, 0), true) else v
  }

  function CanonItems(env: Env, t: Type, v: Value, i: nat): (items: seq<Value>)
    requires v.Table? && i <= |v.items|
    ensures |items| == |v.items| - i
    decreases v, 1, |v.items| - i
  {
    if i == |v.items| then [] else [Canon(env, t, v.items[i])] + CanonItems(env, t, v, i + 1)
  }

  function CanonFields(env: Env, ts: Types, v: Value, i: nat): seq<Value>
    requires v.Table?
    decreases v, 1, if i <= |v.items| then |v.items| - i else 0
  {
    if ts == Nil || i >= |v.items| then [] else [Canon(env, ts.head, v.items[i])] + CanonFields(env, ts.tail, v, i + 1)
  }

  /** Encoded, and decoded back in front of anything, within the limits. */
  ghost predicate Travels(env: Env, t: Type, v: Value, depth: nat, start: nat, end: nat, rest: seq<Token>) {
    && Encode(env, t, v).Encoded?
    && var d := Decode(env, t, Encode(env, t, v).tokens + rest, depth, start);
       d.Got? && d.value.value == Canon(env, t, v) && d.value.rest == rest && d.value.count <= end
  }

  ghost predicate ItemsTravel(env: Env, t: Type, v: Value, i: nat, depth: nat, start: nat, end: nat, rest: seq<Token>)
    requires v.Table? && i <= |v.items|
  {
    && EncodeItems(env, t, v, i).Encoded?
    && var d := DecodeItems(env, t, EncodeItems(env, t, v, i).tokens + ([Close] + rest), depth, start);
       d.Got? && d.value.items == CanonItems(env, t, v, i) && d.value.rest == [Close] + rest && d.value.count <= end
  }

  ghost predicate FieldsTravel(env: Env, ts: Types, v: Value, i: nat, depth: nat, start: nat, end: nat,
                               rest: seq<Token>)
    requires v.Table?
  {
    && EncodeFields(env, ts, v, i).Encoded?
    && var d := DecodeFields(env, ts, EncodeFields(env, ts, v, i).tokens + rest, depth, start);
       d.Got? && d.value.items == CanonFields(env, ts, v, i) && d.value.rest == rest && d.value.count <= end
  }

  lemma {:induction false} EncodedStarts(env: Env, t: Type, v: Value)
    requires Encode(env, t, v).Encoded?
    ensures Encode(env, t, v).tokens != [] && Encode(env, t, v).tokens[0] != Close
  {
  }

  // ---- Byte arrays ----

  lemma {:induction false} BytesTravel(text: Bytes, rest: seq<Token>)
    ensures ReadBytes(BytesTokens(text) + ([Close] + rest)) == Some((text, rest))
  {
    var msg := BytesTokens(text) + ([Close] + rest);
    if text == [] {
      assert msg == [Close] + rest;
    } else {
      BytesTravel(text[1..], rest);
      assert msg[1..] == BytesTokens(text[1..]) + ([Close] + rest);
      assert text == [text[0]] + text[1..];
    }
  }

  /** A table of numbers given for a byte array encodes as the bytes it stands for. */
  lemma {:induction false} ByteItems(env: Env, v: Value, i: nat, depth: nat, count: nat)
    requires v.Table? && i <= |v.items| && ValidateItems(env, Basic('y'), v, i, depth, count).Some?
    ensures EncodeItems(env, Basic('y'), v, i) == Encoded(BytesTokens(AsBytes(v.items)[i..]))
    decreases |v.items| - i
  {
    var bytes := AsBytes(v.items);
    if i == |v.items| {
      assert BytesTokens(bytes[i..]) == [];
    } else {
      var first := Validate(env, Basic('y'), v.items[i], depth, count);
      ByteItems(env, v, i + 1, depth, first.value);
      CastKeeps('y', v.items[i].number.n);
      assert bytes[i..] == [bytes[i]] + bytes[i + 1..];
      assert BytesTokens(bytes[i..]) == [Datum('y', Bits(bytes[i]))] + BytesTokens(bytes[i + 1..]);
    }
  }

  lemma {:induction false} ByteArrayTravels(env: Env, v: Value, depth: nat, count: nat, start: nat, rest: seq<Token>)
    requires Validate(env, Array(Basic('y')), v, depth, count).Some? && start <= count
    ensures Travels(env, Array(Basic('y')), v, depth, start, Validate(env, Array(Basic('y')), v, depth, count).value,
                    rest)
  {
    var bytes := if v.Str? then v.text else AsBytes(v.items);
    if v.Table? {
      ByteItems(env, v, 0, depth + 1, count + 1);
      assert bytes[0..] == bytes;
    }
    BytesTravel(bytes, rest);
    hide ReadBytes, EncodeItems, DecodeItems, ValidateItems, BytesTokens;
    Enclosed(Open('a', "y"), BytesTokens(bytes), rest);
    assert Encode(env, Array(Basic('y')), v) == Encoded([Open('a', "y")] + BytesTokens(bytes) + [Close]);
  }

  // ---- Containers, given what is inside ----

  lemma {:induction false} Enclosed(open: Token, inside: seq<Token>, rest: seq<Token>)
    ensures ([open] + inside + [Close] + rest)[0] == open
    ensures ([open] + inside + [Close] + rest)[1..] == inside + ([Close] + rest)
    ensures ([Close] + rest)[1..] == rest
  {
  }

  lemma {:induction false} BasicTypeTravels(env: Env, code: char, v: Value, depth: nat, count: nat, start: nat,
                                            rest: seq<Token>)
    requires Validate(env, Basic(code), v, depth, count).Some? && start <= count
    ensures Travels(env, Basic(code), v, depth, start, Validate(env, Basic(code), v, depth, count).value, rest)
  {
    hide ExactInteger, OnlyType;
    BasicTravels(env, code, v);
    hide BasicFits, EncodeBasic, DecodeBasic, CanonBasic;
    var tokens := Encode(env, Basic(code), v).tokens;
    assert (tokens + rest)[1..] == rest;
  }

  lemma {:induction false} VariantTravels(env: Env, v: Value, depth: nat, count: nat, start: nat, rest: seq<Token>)
    requires Validate(env, Variant, v, depth, count).Some? && start <= count
    requires Travels(env, OnlyType(v.signature).value, v.value, depth + 1, start + 1,
                     Validate(env, Variant, v, depth, count).value, [Close] + rest)
    ensures Travels(env, Variant, v, depth, start, Validate(env, Variant, v, depth, count).value, rest)
  {
    var inside := Encode(env, OnlyType(v.signature).value, v.value).tokens;
    Enclosed(Open('v', v.signature), inside, rest);
  }

  lemma {:induction false} ArrayTravels(env: Env, element: Type, v: Value, depth: nat, count: nat, start: nat,
                                        rest: seq<Token>)
    requires Validate(env, Array(element), v, depth, count).Some? && start <= count && element != Basic('y') && v.Table?
    requires |Print(element)| < SIGNATURE_MAX
    requires ItemsTravel(env, element, v, 0, depth + 1, start + 1, Validate(env, Array(element), v, depth, count).value,
                         rest)
    ensures Travels(env, Array(element), v, depth, start, Validate(env, Array(element), v, depth, count).value, rest)
  {
    Enclosed(Open('a', Print(element)), EncodeItems(env, element, v, 0).tokens, rest);
  }

  lemma {:induction false} StructTravels(env: Env, t: Type, ts: Types, v: Value, depth: nat, count: nat, start: nat,
                                         rest: seq<Token>)
    requires (t == Struct(ts)) || (t.Entry? && ts == EntryFields(t))
    requires Validate(env, t, v, depth, count).Some? && start <= count && v.Table? && |PrintAll(ts)| < SIGNATURE_MAX
    requires FieldsTravel(env, ts, v, 0, depth + 1, start + 1, Validate(env, t, v, depth, count).value, [Close] + rest)
    ensures Travels(env, t, v, depth, start, Validate(env, t, v, depth, count).value, rest)
  {
    Enclosed(Open(if t.Struct? then 'r' else 'e', PrintAll(ts)), EncodeFields(env, ts, v, 0).tokens, rest);
  }

  // ---- The induction ----

  /** Whatever validates encodes without overrunning the contents buffer, and decodes back within the limits. */
  lemma {:induction false} ValueTravels(env: Env, t: Type, v: Value, depth: nat, count: nat, start: nat,
                                        rest: seq<Token>)
    requires Good(t, true) && |Print(t)| <= SIGNATURE_MAX && start <= count && Validate(env, t, v, depth, count).Some?
    ensures Travels(env, t, v, depth, start, Validate(env, t, v, depth, count).value, rest)
    decreases v, 2, 0
  {
    hide Travels, ItemsTravel, FieldsTravel, BasicFits, Encode, Decode, EncodeItems, DecodeItems, EncodeFields,
         DecodeFields, ValidateFields, IsBasic, Canon, ParseAll;
    match t
    case Basic(code) => BasicTypeTravels(env, code, v, depth, count, start, rest);
    case Variant =>
      OnlyTypeIsGood(v.signature);
      var u := OnlyType(v.signature).value;
      WeakerGood(u);
      ValueTravels(env, u, v.value, depth + 1, count + 1, start + 1, [Close] + rest);
      VariantTravels(env, v, depth, count, start, rest);
    case Array(element) =>
      if element == Basic('y') {
        ByteArrayTravels(env, v, depth, count, start, rest);
      } else {
        AllItemsTravel(env, element, v, 0, depth + 1, count + 1, start + 1, rest);
        ArrayTravels(env, element, v, depth, count, start, rest);
      }
    case Struct(fields) =>
      ValidTable(env, fields, v, 0, depth + 1, count + 1);
      AllFieldsTravel(env, fields, v, 0, depth + 1, count + 1, start + 1, [Close] + rest);
      StructTravels(env, t, fields, v, depth, count, start, rest);
    case Entry(key, value) =>
      var ts := EntryFields(t);
      EntryPrint(t);
      ValidTable(env, ts, v, 0, depth + 1, count + 1);
      AllFieldsTravel(env, ts, v, 0, depth + 1, count + 1, start + 1, [Close] + rest);
      StructTravels(env, t, ts, v, depth, count, start, rest);
  }

  lemma {:induction false} WeakerGood(t: Type)
    requires Good(t, false)
    ensures Good(t, true)
  {
  }

  lemma {:induction false} EntryPrint(t: Type)
    requires t.Entry? && Good(t, true)
    ensures AllGood(EntryFields(t)) && |PrintAll(EntryFields(t))| == |Print(t)| - 2
  {
    var last := Cons(t.value, Nil);
    assert PrintAll(last) == Print(t.value) + "";
    assert PrintAll(EntryFields(t)) == [t.key] + PrintAll(last);
  }

  lemma {:induction false} ValidTable(env: Env, ts: Types, v: Value, i: nat, depth: nat, count: nat)
    requires ValidateFields(env, ts, v, i, depth, count).Some?
    ensures v.Table?
  {
  }

  /** One item, and then the others. */
  lemma {:induction false} ItemsStep(env: Env, t: Type, v: Value, i: nat, depth: nat, start: nat, middle: nat,
                                     end: nat, rest: seq<Token>)
    requires v.Table? && i < |v.items| && EncodeItems(env, t, v, i + 1).Encoded?
    requires Travels(env, t, v.items[i], depth, start, middle, EncodeItems(env, t, v, i + 1).tokens + ([Close] + rest))
    requires var msg := Encode(env, t, v.items[i]).tokens + (EncodeItems(env, t, v, i + 1).tokens + ([Close] + rest));
             ItemsTravel(env, t, v, i + 1, depth, Decode(env, t, msg, depth, start).value.count, end, rest)
    ensures ItemsTravel(env, t, v, i, depth, start, end, rest)
  {
    hide Encode, Decode;
    var first, more := Encode(env, t, v.items[i]).tokens, EncodeItems(env, t, v, i + 1).tokens;
    EncodedStarts(env, t, v.items[i]);
    assert first + (more + ([Close] + rest)) == (first + more) + ([Close] + rest);
  }

  lemma {:induction false} AllItemsTravel(env: Env, t: Type, v: Value, i: nat, depth: nat, count: nat, start: nat,
                                          rest: seq<Token>)
    requires v.Table? && i <= |v.items| && Good(t, true) && |Print(t)| <= SIGNATURE_MAX && start <= count
    requires ValidateItems(env, t, v, i, depth, count).Some?
    ensures ItemsTravel(env, t, v, i, depth, start, ValidateItems(env, t, v, i, depth, count).value, rest)
    decreases v, 1, |v.items| - i
  {
    hide Validate, Encode, Decode, EncodeItems, DecodeItems, ItemsTravel, Print, Good, Canon;
    if i == |v.items| {
      NoItemsTravel(env, t, v, depth, count, start, rest);
    } else {
      var next := Validate(env, t, v.items[i], depth, count).value;
      AllItemsTravel(env, t, v, i + 1, depth, next, next, rest);
      ItemsEncoded(env, t, v, i + 1, depth, next, ValidateItems(env, t, v, i, depth, count).value, rest);
      var following := EncodeItems(env, t, v, i + 1).tokens + ([Close] + rest);
      ValueTravels(env, t, v.items[i], depth, count, start, following);
      var msg := Encode(env, t, v.items[i]).tokens + following;
      AllItemsTravel(env, t, v, i + 1, depth, next, Decode(env, t, msg, depth, start).value.count, rest);
      ItemsStep(env, t, v, i, depth, start, next, ValidateItems(env, t, v, i, depth, count).value, rest);
    }
  }

  lemma {:induction false} NoItemsTravel(env: Env, t: Type, v: Value, depth: nat, count: nat, start: nat,
                                         rest: seq<Token>)
    requires v.Table? && start <= count && ValidateItems(env, t, v, |v.items|, depth, count).Some?
    ensures ItemsTravel(env, t, v, |v.items|, depth, start, ValidateItems(env, t, v, |v.items|, depth, count).value,
                        rest)
  {
    assert [] + ([Close] + rest) == [Close] + rest;
  }

  lemma {:induction false} ItemsEncoded(env: Env, t: Type, v: Value, i: nat, depth: nat, start: nat, end: nat,
                                        rest: seq<Token>)
    requires v.Table? && i <= |v.items| && ItemsTravel(env, t, v, i, depth, start, end, rest)
    ensures EncodeItems(env, t, v, i).Encoded?
  {
  }

  /** One field, and then the others. */
  lemma {:induction false} FieldsStep(env: Env, ts: Types, v: Value, i: nat, depth: nat, start: nat, middle: nat,
                                      end: nat, rest: seq<Token>)
    requires v.Table? && ts.Cons? && i < |v.items| && EncodeFields(env, ts.tail, v, i + 1).Encoded?
    requires Travels(env, ts.head, v.items[i], depth, start, middle, EncodeFields(env, ts.tail, v, i + 1).tokens + rest)
    requires var msg := Encode(env, ts.head, v.items[i]).tokens + (EncodeFields(env, ts.tail, v, i + 1).tokens + rest);
             FieldsTravel(env, ts.tail, v, i + 1, depth, Decode(env, ts.head, msg, depth, start).value.count, end, rest)
    ensures FieldsTravel(env, ts, v, i, depth, start, end, rest)
  {
    hide Encode, Decode;
    var first, more := Encode(env, ts.head, v.items[i]).tokens, EncodeFields(env, ts.tail, v, i + 1).tokens;
    assert first + (more + rest) == (first + more) + rest;
  }

  lemma {:induction false} AllFieldsTravel(env: Env, ts: Types, v: Value, i: nat, depth: nat, count: nat, start: nat,
                                           rest: seq<Token>)
    requires v.Table? && AllGood(ts) && |PrintAll(ts)| <= SIGNATURE_MAX && start <= count
    requires ValidateFields(env, ts, v, i, depth, count).Some?
    ensures FieldsTravel(env, ts, v, i, depth, start, ValidateFields(env, ts, v, i, depth, count).value, rest)
    decreases v, 1, if i <= |v.items| then |v.items| - i else 0
  {
    if ts == Nil {
      assert [] + rest == rest;
    } else {
      hide Validate, Encode, Decode, EncodeFields, DecodeFields, FieldsTravel, Canon;
      var next := Validate(env, ts.head, v.items[i], depth, count).value;
      WeakerGood(ts.head);
      AllFieldsTravel(env, ts.tail, v, i + 1, depth, next, next, rest);
      FieldsEncoded(env, ts.tail, v, i + 1, depth, next, ValidateFields(env, ts, v, i, depth, count).value, rest);
      var following := EncodeFields(env, ts.tail, v, i + 1).tokens + rest;
      ValueTravels(env, ts.head, v.items[i], depth, count, start, following);
      var msg := Encode(env, ts.head, v.items[i]).tokens + following;
      AllFieldsTravel(env, ts.tail, v, i + 1, depth, next, Decode(env, ts.head, msg, depth, start).value.count, rest);
      FieldsStep(env, ts, v, i, depth, start, next, ValidateFields(env, ts, v, i, depth, count).value, rest);
    }
  }

  lemma {:induction false} FieldsEncoded(env: Env, ts: Types, v: Value, i: nat, depth: nat, start: nat, end: nat,
                                         rest: seq<Token>)
    requires v.Table? && FieldsTravel(env, ts, v, i, depth, start, end, rest)
    ensures EncodeFields(env, ts, v, i).Encoded?
  {
  }

  // ---- The contents buffers ----

  /** Whatever a message holds, reading it as a type that fits a signature never overruns the contents buffer. */
  lemma {:induction false} DecodeStays(env: Env, t: Type, msg: seq<Token>, depth: nat, count: nat)
    requires Good(t, true) && |Print(t)| <= SIGNATURE_MAX
    ensures !Decode(env, t, msg, depth, count).Overran?
    decreases |msg|, 0
  {
    hide DecodeBasic, ParseAll, PrintAll, IsBasic, AllGood;
    if depth <= CONTAINER_DEPTH && count + 1 <= VALUE_LIMIT && msg != [] {
      hide DecodeItems, DecodeFields, DecodeBasic, ReadBytes;
      match t
      case Basic(_) =>
      case Variant =>
        if msg[0].Open? && OnlyType(msg[0].contents).Some? {
          OnlyTypeIsGood(msg[0].contents);
          WeakerGood(OnlyType(msg[0].contents).value);
          DecodeStays(env, OnlyType(msg[0].contents).value, msg[1..], depth + 1, count + 1);
        }
      case Array(element) => ItemsStay(env, element, msg[1..], depth + 1, count + 1);
      case Struct(fields) => FieldsStay(env, fields, msg[1..], depth + 1, count + 1);
      case Entry(_, _) =>
        EntryPrint(t);
        FieldsStay(env, EntryFields(t), msg[1..], depth + 1, count + 1);
    }
  }

  lemma {:induction false} ItemsStay(env: Env, t: Type, msg: seq<Token>, depth: nat, count: nat)
    requires Good(t, true) && |Print(t)| <= SIGNATURE_MAX
    ensures !DecodeItems(env, t, msg, depth, count).Overran?
    decreases |msg|, 1
  {
    if msg != [] && msg[0] != Close {
      hide Decode, Print, Good;
      DecodeStays(env, t, msg, depth, count);
      var first := Decode(env, t, msg, depth, count);
      if first.Got? {
        ItemsStay(env, t, first.value.rest, depth, first.value.count);
      }
    }
  }

  lemma {:induction false} FieldsStay(env: Env, ts: Types, msg: seq<Token>, depth: nat, count: nat)
    requires AllGood(ts) && |PrintAll(ts)| <= SIGNATURE_MAX
    ensures !DecodeFields(env, ts, msg, depth, count).Overran?
    decreases |msg|, 1, ts
  {
    if ts.Cons? {
      hide Decode;
      WeakerGood(ts.head);
      DecodeStays(env, ts.head, msg, depth, count);
      var first := Decode(env, ts.head, msg, depth, count);
      if first.Got? {
        FieldsStay(env, ts.tail, first.value.rest, depth, first.value.count);
      }
    }
  }

  /** Nor does writing, whatever the value. */
  lemma {:induction false} EncodeStays(env: Env, t: Type, v: Value)
    requires Good(t, true) && |Print(t)| <= SIGNATURE_MAX
    ensures !Encode(env, t, v).Overrun?
    decreases v, 2, 0
  {
    hide EncodeItems, EncodeFields, EncodeBasic;
    match t
    case Basic(_) =>
    case Variant =>
      if v.Boxed? && OnlyType(v.signature).Some? {
        OnlyTypeIsGood(v.signature);
        WeakerGood(OnlyType(v.signature).value);
        EncodeStays(env, OnlyType(v.signature).value, v.value);
      }
    case Array(element) =>
      if v.Table? {
        EncodedItemsStay(env, element, v, 0);
      }
    case Struct(fields) => EncodedFieldsStay(env, fields, v, 0);
    case Entry(_, _) =>
      EntryPrint(t);
      EncodedFieldsStay(env, EntryFields(t), v, 0);
  }

  lemma {:induction false} EncodedItemsStay(env: Env, t: Type, v: Value, i: nat)
    requires v.Table? && i <= |v.items| && Good(t, true) && |Print(t)| <= SIGNATURE_MAX
    ensures !EncodeItems(env, t, v, i).Overrun?
    decreases v, 1, |v.items| - i
  {
    if i < |v.items| {
      hide Encode, Print, Good;
      EncodeStays(env, t, v.items[i]);
      EncodedItemsStay(env, t, v, i + 1);
    }
  }

  lemma {:induction false} EncodedFieldsStay(env: Env, ts: Types, v: Value, i: nat)
    requires AllGood(ts) && |PrintAll(ts)| <= SIGNATURE_MAX
    ensures !EncodeFields(env, ts, v, i).Overrun?
    decreases v, 1, if v.Table? && i <= |v.items| then |v.items| - i else 0
  {
    if ts.Cons? && v.Table? && i < |v.items| {
      hide Encode;
      WeakerGood(ts.head);
      EncodeStays(env, ts.head, v.items[i]);
      EncodedFieldsStay(env, ts.tail, v, i + 1);
    }
  }

  // ---- Whole messages ----

  /**
   Arguments that validate against a signature encode without a refusal or an overrun, and a reader
   with the same signature gets them back, up to byte tables, without exceeding its own limits.
   */
  lemma {:induction false} MessageTravels(env: Env, signature: string, ts: Types, arguments: Value)
    requires SignatureOf(signature, ts) && ValidateFields(env, ts, arguments, 0, 0, 0).Some?
    ensures arguments.Table? && FieldsTravel(env, ts, arguments, 0, 0, 0, VALUE_LIMIT, [])
  {
    ValidTable(env, ts, arguments, 0, 0, 0);
    AllFieldsTravel(env, ts, arguments, 0, 0, 0, 0, []);
  }

  // ---- When nothing changes ----

  /** The Lua type that a reader gives a basic value of a code. */
  predicate OwnForm(code: char, v: Value) {
    (Big(code) ==> v.Wide?) && (Textual(code) ==> v.Str?)
  }

  /** A value that already has the form a reader gives back: no byte tables, and basic values in their own form. */
  predicate Normal(t: Type, v: Value)
    decreases v, 2, 0
  {
    match t
    case Basic(code) => OwnForm(code, v)
    case Variant => v.Boxed? && OnlyType(v.signature).Some? ==> Normal(OnlyType(v.signature).value, v.value)
    case Array(element) => v.Table? ==> element != Basic('y') && NormalItems(element, v, 0)
    case Struct(fields) => v.Table? ==> NormalFields(fields, v, 0)
    case Entry(_, _) => v.Table? ==> NormalFields(EntryFields(t), v, 0)
  }

  predicate NormalItems(t: Type, v: Value, i: nat)
    requires v.Table? && i <= |v.items|
    decreases v, 1, |v.items| - i
  {
    i == |v.items| || (Normal(t, v.items[i]) && NormalItems(t, v, i + 1))
  }

  predicate NormalFields(ts: Types, v: Value, i: nat)
    requires v.Table?
    decreases v, 1, if i <= |v.items| then |v.items| - i else 0
  {
    ts == Nil || i >= |v.items| || (Normal(ts.head, v.items[i]) && NormalFields(ts.tail, v, i + 1))
  }

  /** A 64-bit integer that is taken for one is taken for itself. */
  lemma {:induction false} WideIsItself(s: bool, n: int, signed: bool)
    requires ExactInteger(Wide(s, n), signed).Some?
    ensures s == signed && ExactInteger(Wide(s, n), signed).value == n
  {
    if InRange(if s then 'x' else 't', n) {
      WideIsExact(s, n, signed);
    } else {
      NothingPrinted(signed);
    }
  }

  /** A valid basic value reads back as it was exactly when it is in its own form. */
  lemma {:induction false} OnlyOwnForm(env: Env, code: char, v: Value)
    requires BasicFits(env, code, v)
    ensures CanonBasic(env, code, v) == v <==> OwnForm(code, v)
  {
    hide ExactInteger, GoodText, InRange;
    if Big(code) && v.Wide? {
      WideIsItself(v.signed, v.n, code == 'x');
    }
  }

  lemma {:induction false} NothingPrinted(signed: bool)
    ensures Numerals.ReadWide([], signed) == None
  {
  }

  /**
   A valid value comes back as it was exactly when it is in its own form: only byte tables, numbers and
   suffixed numerals for 64-bit integers, and numbers for text come back in another form.
   */
  lemma {:induction false} NormalIsUnchanged(env: Env, t: Type, v: Value, depth: nat, count: nat)
    requires Validate(env, t, v, depth, count).Some?
    ensures Canon(env, t, v) == v <==> Normal(t, v)
    decreases v, 2, 0
  {
    hide BasicFits, CanonBasic;
    match t
    case Basic(code) => OnlyOwnForm(env, code, v);
    case Variant =>
      NormalIsUnchanged(env, OnlyType(v.signature).value, v.value, depth + 1, count + 1);
    case Array(element) =>
      if v.Table? && element != Basic('y') {
        ItemsUnchanged(env, element, v, 0, depth + 1, count + 1);
        assert v.items[0..] == v.items;
      }
    case Struct(fields) =>
      FieldsUnchanged(env, fields, v, 0, depth + 1, count + 1);
      assert v.items[0..] == v.items;
    case Entry(_, _) =>
      FieldsUnchanged(env, EntryFields(t), v, 0, depth + 1, count + 1);
      assert v.items[0..] == v.items;
  }

  lemma {:induction false} ItemsUnchanged(env: Env, t: Type, v: Value, i: nat, depth: nat, count: nat)
    requires v.Table? && i <= |v.items| && ValidateItems(env, t, v, i, depth, count).Some?
    ensures CanonItems(env, t, v, i) == v.items[i..] <==> NormalItems(t, v, i)
    decreases v, 1, |v.items| - i
  {
    if i < |v.items| {
      hide Canon, Validate, Normal;
      var next := Validate(env, t, v.items[i], depth, count).value;
      NormalIsUnchanged(env, t, v.items[i], depth, count);
      ItemsUnchanged(env, t, v, i + 1, depth, next);
      FirstAndRest(Canon(env, t, v.items[i]), CanonItems(env, t, v, i + 1), v.items, i);
    }
  }

  lemma {:induction false} FirstAndRest(first: Value, rest: seq<Value>, items: seq<Value>, i: nat)
    requires i < |items|
    ensures [first] + rest == items[i..] <==> first == items[i] && rest == items[i + 1..]
  {
    assert items[i..] == [items[i]] + items[i + 1..];
    assert ([first] + rest)[0] == first && ([first] + rest)[1..] == rest;
    assert items[i..][1..] == items[i + 1..];
  }

  lemma {:induction false} FieldsUnchanged(env: Env, ts: Types, v: Value, i: nat, depth: nat, count: nat)
    requires ValidateFields(env, ts, v, i, depth, count).Some?
    ensures v.Table? && v.dense && i <= |v.items|
    ensures CanonFields(env, ts, v, i) == v.items[i..] <==> NormalFields(ts, v, i)
    decreases v, 1, if v.Table? && i <= |v.items| then |v.items| - i else 0
  {
    if ts != Nil {
      hide Canon, Validate, Normal;
      var next := Validate(env, ts.head, v.items[i], depth, count).value;
      NormalIsUnchanged(env, ts.head, v.items[i], depth, count);
      FieldsUnchanged(env, ts.tail, v, i + 1, depth, next);
      FirstAndRest(Canon(env, ts.head, v.items[i]), CanonFields(env, ts.tail, v, i + 1), v.items, i);
    }
  }
}
