/**
 D-Bus signatures: a recursive-descent recognizer with a shared cursor, and the type trees it recognizes.
 The supported subset has no file descriptors; containers nest 32 deep, structures and arrays counted
 together, and a signature has at most 255 characters.
 */
module Signatures {
  import opened Items

  const CONTAINER_DEPTH: nat := 32
  const SIGNATURE_MAX: nat := 255

  predicate IsBasic(c: char) {
    c in "ybnqiuxtdsog"
  }

  /** Complete types; a dictionary entry is one only as the element of an array. */
  datatype Type =
    | Basic(code: char)
    | Variant
    | Array(element: Type)
    | Entry(key: char, value: Type)
    | Struct(fields: Types)

  datatype Types = Nil | Cons(head: Type, tail: Types)

  predicate Good(t: Type, entryAllowed: bool) {
    match t
    case Basic(c) => IsBasic(c)
    case Variant => true
    case Array(element) => Good(element, true)
    case Entry(key, value) => entryAllowed && IsBasic(key) && Good(value, false)
    case Struct(fields) => fields != Nil && AllGood(fields)
  }

  predicate AllGood(ts: Types) {
    ts.Cons? ==> Good(ts.head, false) && AllGood(ts.tail)
  }

  function Print(t: Type): (text: string)
    ensures text != ""
  {
    match t
    case Basic(c) => [c]
    case Variant => "v"
    case Array(element) => "a" + Print(element)
    case Entry(key, value) => "{" + [key] + Print(value) + "}"
    case Struct(fields) => "(" + PrintAll(fields) + ")"
  }

  function PrintAll(ts: Types): string {
    if ts == Nil then "" else Print(ts.head) + PrintAll(ts.tail)
  }

  /** How many container levels a type adds. */
  function Height(t: Type): nat {
    match t
    case Basic(_) => 0
    case Variant => 0
    case Array(element) => 1 + Height(element)
    case Entry(_, value) => 1 + Height(value)
    case Struct(fields) => 1 + HeightAll(fields)
  }

  function HeightAll(ts: Types): nat {
    if ts == Nil then 0 else Max(Height(ts.head), HeightAll(ts.tail))
  }

  function Max(a: nat, b: nat): nat {
    if a > b then a else b
  }

  function Length(ts: Types): nat {
    if ts == Nil then 0 else 1 + Length(ts.tail)
  }

  // ---- Recognizing one complete type ----

  /** The tree of the complete type that starts at a cursor, and the cursor after it. */
  function Parse(s: string, cursor: nat, depth: nat, entryAllowed: bool): (r: Option<(Type, nat)>)
    requires cursor <= |s|
    ensures r.Some? ==> cursor < r.value.1 <= |s|
    decreases |s| - cursor, 0
  {
    if depth > CONTAINER_DEPTH || cursor == |s| then None
    else if IsBasic(s[cursor]) then Some((Basic(s[cursor]), cursor + 1))
    else if s[cursor] == 'v' then Some((Variant, cursor + 1))
    else if s[cursor] == 'a' then
      var element := Parse(s, cursor + 1, depth + 1, true);
      if element.None? then None else Some((Array(element.value.0), element.value.1))
    else if s[cursor] == '(' then
      var fields := ParseFields(s, cursor + 1, depth + 1);
      if fields.None? || fields.value.0 == Nil || fields.value.1 == |s| then None
      else Some((Struct(fields.value.0), fields.value.1 + 1))
    else if s[cursor] == '{' && entryAllowed then
      if cursor + 1 == |s| || !IsBasic(s[cursor + 1]) || depth + 1 > CONTAINER_DEPTH then None
      else
        var value := Parse(s, cursor + 2, depth + 1, false);
        if value.None? || value.value.1 == |s| || s[value.value.1] != '}' then None
        else Some((Entry(s[cursor + 1], value.value.0), value.value.1 + 1))
    else None
  }

  /** The fields up to a closing parenthesis or the end of the text. */
  function ParseFields(s: string, cursor: nat, depth: nat): (r: Option<(Types, nat)>)
    requires cursor <= |s|
    ensures r.Some? ==> cursor <= r.value.1 <= |s| && (r.value.1 < |s| ==> s[r.value.1] == ')')
    decreases |s| - cursor, 1
  {
    if cursor == |s| || s[cursor] == ')' then Some((Nil, cursor))
    else
      var first := Parse(s, cursor, depth, false);
      if first.None? then None
      else
        var more := ParseFields(s, first.value.1, depth);
        if more.None? then None else Some((Cons(first.value.0, more.value.0), more.value.1))
  }

  lemma {:induction false} Cut(s: string, a: nat, b: nat, c: nat)
    requires a <= b <= c <= |s|
    ensures s[a..c] == s[a..b] + s[b..c]
  {
  }

  /** A recognized type is good, within the depth limit, and printed where it was read. */
  ghost predicate Sound(s: string, cursor: nat, depth: nat, entryAllowed: bool, t: Type, end: nat) {
    cursor <= end <= |s| && Good(t, entryAllowed) && depth + Height(t) <= CONTAINER_DEPTH && s[cursor..end] == Print(t)
  }

  /** Whatever is recognized is the printed form of a good type within the depth limit. */
  lemma {:induction false} ParseIsSound(s: string, cursor: nat, depth: nat, entryAllowed: bool)
    requires cursor <= |s| && Parse(s, cursor, depth, entryAllowed).Some?
    ensures var (t, end) := Parse(s, cursor, depth, entryAllowed).value; Sound(s, cursor, depth, entryAllowed, t, end)
    decreases |s| - cursor, 0
  {
    var (t, end) := Parse(s, cursor, depth, entryAllowed).value;
    match t
    case Basic(_) =>
    case Variant =>
    case Array(element) => ParseIsSound(s, cursor + 1, depth + 1, true);
      Cut(s, cursor, cursor + 1, end);
    case Struct(fields) => StructIsSound(s, cursor, depth, entryAllowed);
    case Entry(key, value) => EntryIsSound(s, cursor, depth);
  }

  lemma {:induction false} EntryIsSound(s: string, cursor: nat, depth: nat)
    requires cursor < |s| && s[cursor] == '{' && Parse(s, cursor, depth, true).Some?
    ensures var (t, end) := Parse(s, cursor, depth, true).value; Sound(s, cursor, depth, true, t, end)
    decreases |s| - cursor - 2, 1
  {
    hide PrintAll;
    var (t, end) := Parse(s, cursor, depth, true).value;
    ParseIsSound(s, cursor + 2, depth + 1, false);
    assert s[cursor..end] == "{" + [s[cursor + 1]] + s[cursor + 2..end - 1] + "}";
  }

  lemma {:induction false} StructIsSound(s: string, cursor: nat, depth: nat, entryAllowed: bool)
    requires cursor < |s| && s[cursor] == '(' && Parse(s, cursor, depth, entryAllowed).Some?
    ensures var (t, end) := Parse(s, cursor, depth, entryAllowed).value; Sound(s, cursor, depth, entryAllowed, t, end)
    decreases |s| - cursor - 1, 2
  {
    hide ParseFields, AllGood, HeightAll, PrintAll;
    var (t, end) := Parse(s, cursor, depth, entryAllowed).value;
    FieldsAreSound(s, cursor + 1, depth + 1);
    Wrapped(s, cursor, end, PrintAll(t.fields));
  }

  lemma {:induction false} Wrapped(s: string, start: nat, end: nat, body: string)
    requires start + 2 <= end <= |s| && s[start] == '(' && s[end - 1] == ')' && s[start + 1..end - 1] == body
    ensures s[start..end] == "(" + body + ")"
  {
  }

  lemma {:induction false} FieldsAreSound(s: string, cursor: nat, depth: nat)
    requires cursor <= |s| && ParseFields(s, cursor, depth).Some?
    ensures var (ts, end) := ParseFields(s, cursor, depth).value;
            && AllGood(ts) && (ts != Nil ==> depth + HeightAll(ts) <= CONTAINER_DEPTH) && s[cursor..end] == PrintAll(ts)
    decreases |s| - cursor, 1
  {
    hide Parse, Good, Height, Print;
    var (ts, end) := ParseFields(s, cursor, depth).value;
    if ts.Cons? {
      var middle := Parse(s, cursor, depth, false).value.1;
      ParseIsSound(s, cursor, depth, false);
      FieldsAreSound(s, middle, depth);
      Cut(s, cursor, middle, end);
    }
  }

  /** A text that continues with the printed form of something. */
  ghost predicate At(s: string, cursor: nat, text: string) {
    cursor + |text| <= |s| && s[cursor..cursor + |text|] == text
  }

  lemma {:induction false} AtSplit(s: string, cursor: nat, a: string, b: string)
    requires At(s, cursor, a + b)
    ensures At(s, cursor, a) && At(s, cursor + |a|, b)
  {
    var whole := s[cursor..cursor + |a + b|];
    assert whole[..|a|] == a && whole[|a|..] == b;
    assert s[cursor..cursor + |a|] == whole[..|a|];
    assert s[cursor + |a|..cursor + |a| + |b|] == whole[|a|..];
  }

  lemma {:induction false} AtChar(s: string, cursor: nat, c: char)
    requires At(s, cursor, [c])
    ensures cursor < |s| && s[cursor] == c
  {
    assert s[cursor..cursor + 1][0] == c;
  }

  /** Every printed good type within the depth limit is recognized, whatever follows it, and gives its tree back. */
  lemma {:induction false} ParsePrinted(s: string, cursor: nat, t: Type, depth: nat, entryAllowed: bool)
    requires At(s, cursor, Print(t)) && Good(t, entryAllowed) && depth + Height(t) <= CONTAINER_DEPTH
    ensures Parse(s, cursor, depth, entryAllowed) == Some((t, cursor + |Print(t)|))
    decreases t, 0
  {
    hide At, AllGood, HeightAll, PrintAll, Max;
    match t
    case Basic(c) =>
      NotClosing(c);
      AtChar(s, cursor, c);
    case Variant => AtChar(s, cursor, 'v');
    case Array(element) =>
      AtSplit(s, cursor, "a", Print(element));
      AtChar(s, cursor, 'a');
      ParsePrinted(s, cursor + 1, element, depth + 1, true);
    case Struct(fields) => StructPrinted(s, cursor, t, depth, entryAllowed);
    case Entry(key, value) => EntryPrinted(s, cursor, t, depth);
  }

  lemma {:induction false} NotClosing(c: char)
    requires IsBasic(c)
    ensures c !in ")v(a{}"
  {
  }

  lemma {:induction false} StructPrinted(s: string, cursor: nat, t: Type, depth: nat, entryAllowed: bool)
    requires t.Struct? && At(s, cursor, Print(t)) && Good(t, entryAllowed) && depth + Height(t) <= CONTAINER_DEPTH
    ensures Parse(s, cursor, depth, entryAllowed) == Some((t, cursor + |Print(t)|))
    decreases t.fields, 2
  {
    hide ParseFields, At, PrintAll;
    var inside := PrintAll(t.fields);
    assert Print(t) == "(" + (inside + ")");
    AtSplit(s, cursor, "(", inside + ")");
    AtSplit(s, cursor + 1, inside, ")");
    AtChar(s, cursor, '(');
    AtChar(s, cursor + 1 + |inside|, ')');
    FieldsPrinted(s, cursor + 1, t.fields, depth + 1);
  }

  lemma {:induction false} EntryPrinted(s: string, cursor: nat, t: Type, depth: nat)
    requires t.Entry? && At(s, cursor, Print(t)) && Good(t, true) && depth + Height(t) <= CONTAINER_DEPTH
    ensures Parse(s, cursor, depth, true) == Some((t, cursor + |Print(t)|))
    decreases t.value, 2
  {
    var inside := Print(t.value);
    assert Print(t) == "{" + ([t.key] + (inside + "}"));
    AtSplit(s, cursor, "{", [t.key] + (inside + "}"));
    AtSplit(s, cursor + 1, [t.key], inside + "}");
    AtSplit(s, cursor + 2, inside, "}");
    AtChar(s, cursor, '{');
    AtChar(s, cursor + 1, t.key);
    AtChar(s, cursor + 2 + |inside|, '}');
    ParsePrinted(s, cursor + 2, t.value, depth + 1, false);
  }

  lemma {:induction false} FirstChar(t: Type, entryAllowed: bool)
    requires Good(t, entryAllowed)
    ensures Print(t)[0] != ')'
  {
    if t.Basic? {
      NotClosing(t.code);
    }
  }

  lemma {:induction false} FieldsPrinted(s: string, cursor: nat, ts: Types, depth: nat)
    requires At(s, cursor, PrintAll(ts)) && AllGood(ts) && depth + HeightAll(ts) <= CONTAINER_DEPTH
    requires var end := cursor + |PrintAll(ts)|; end == |s| || s[end] == ')'
    ensures ParseFields(s, cursor, depth) == Some((ts, cursor + |PrintAll(ts)|))
    decreases ts, 1
  {
    hide Parse, Good, Height, Print;
    if ts.Cons? {
      AtSplit(s, cursor, Print(ts.head), PrintAll(ts.tail));
      ParsePrinted(s, cursor, ts.head, depth, false);
      FieldsPrinted(s, cursor + |Print(ts.head)|, ts.tail, depth);
      FirstChar(ts.head, false);
      assert s[cursor] == s[cursor..cursor + |Print(ts.head)|][0];
    }
  }

  /** The end of the first complete type is the only one: no printed type is a prefix of another. */
  lemma {:induction false} FirstTypeIsUnique(s: string, cursor: nat, t: Type, u: Type)
    requires At(s, cursor, Print(t)) && Good(t, false) && Height(t) <= CONTAINER_DEPTH
    requires At(s, cursor, Print(u)) && Good(u, false) && Height(u) <= CONTAINER_DEPTH
    ensures t == u
  {
    ParsePrinted(s, cursor, t, 0, false);
    ParsePrinted(s, cursor, u, 0, false);
  }

  // ---- Whole signatures ----

  /** A signature text: complete types in a row, within the limits. */
  ghost predicate SignatureOf(s: string, ts: Types) {
    |s| <= SIGNATURE_MAX && s == PrintAll(ts) && AllGood(ts) && HeightAll(ts) <= CONTAINER_DEPTH
  }

  /** The types of a text, one after another from a cursor, if all of it is types. */
  function ParseAll(s: string, cursor: nat): Option<Types>
    requires cursor <= |s|
    decreases |s| - cursor
  {
    if cursor == |s| then Some(Nil)
    else
      var first := Parse(s, cursor, 0, false);
      if first.None? then None
      else
        var more := ParseAll(s, first.value.1);
        if more.None? then None else Some(Cons(first.value.0, more.value))
  }

  lemma {:induction false} AllIsSound(s: string, cursor: nat)
    requires cursor <= |s| && ParseAll(s, cursor).Some?
    ensures var ts := ParseAll(s, cursor).value;
            AllGood(ts) && HeightAll(ts) <= CONTAINER_DEPTH && s[cursor..] == PrintAll(ts)
    decreases |s| - cursor
  {
    if cursor < |s| {
      var middle := Parse(s, cursor, 0, false).value.1;
      ParseIsSound(s, cursor, 0, false);
      AllIsSound(s, middle);
      assert s[cursor..] == s[cursor..middle] + s[middle..];
    }
  }

  lemma {:induction false} AllPrinted(s: string, cursor: nat, ts: Types)
    requires cursor <= |s| && s[cursor..] == PrintAll(ts) && AllGood(ts) && HeightAll(ts) <= CONTAINER_DEPTH
    ensures ParseAll(s, cursor) == Some(ts)
    decreases ts
  {
    hide Good;
    if ts.Cons? {
      assert At(s, cursor, PrintAll(ts)) by {
        assert s[cursor..cursor + |PrintAll(ts)|] == s[cursor..];
      }
      AtSplit(s, cursor, Print(ts.head), PrintAll(ts.tail));
      ParsePrinted(s, cursor, ts.head, 0, false);
      var middle := cursor + |Print(ts.head)|;
      assert s[middle..] == s[middle..middle + |PrintAll(ts.tail)|];
      AllPrinted(s, middle, ts.tail);
    }
  }

  /** The types of a signature are determined by its text. */
  lemma {:induction false} SignatureIsUnique(s: string, ts: Types, us: Types)
    requires SignatureOf(s, ts) && SignatureOf(s, us)
    ensures ts == us
  {
    assert s[0..] == s;
    AllPrinted(s, 0, ts);
    AllPrinted(s, 0, us);
  }

  /** Walking a signature type by type, as every reader of a signature does. */
  class SignatureParser {
    const text: string
    var cursor: nat

    constructor (text: string)
      ensures this.text == text && cursor == 0
    {
      this.text, cursor := text, 0;
    }

    /** Recognizes one complete type, moving the cursor past it. */
    method ReadType(depth: nat, entryAllowed: bool) returns (ok: bool)
      requires cursor <= |text|
      modifies this
      ensures ok <==> Parse(text, old(cursor), depth, entryAllowed).Some?
      ensures ok ==> cursor == Parse(text, old(cursor), depth, entryAllowed).value.1
      ensures cursor <= |text|
      decreases |text| - cursor, 0
    {
      if depth > CONTAINER_DEPTH || cursor == |text| {
        return false;
      }
      var code := text[cursor];
      cursor := cursor + 1;
      if IsBasic(code) || code == 'v' {
        return true;
      }
      if code == 'a' {
        ok := ReadType(depth + 1, true);
      } else if code == '(' {
        ok := ReadFields(depth + 1);
      } else if code == '{' && entryAllowed {
        ok := ReadEntry(depth + 1);
      } else {
        ok := false;
      }
    }

    /** The fields of a structure and its closing parenthesis. */
    method ReadFields(depth: nat) returns (ok: bool)
      requires cursor <= |text|
      modifies this
      ensures var fields := ParseFields(text, old(cursor), depth);
              && (ok <==> fields.Some? && fields.value.0 != Nil && fields.value.1 < |text|)
              && (ok ==> cursor == fields.value.1 + 1)
      ensures cursor <= |text|
      decreases |text| - cursor, 1
    {
      var first := cursor;
      ghost var before := Nil;
      while cursor < |text| && text[cursor] != ')'
        invariant first <= cursor <= |text| && (cursor > first <==> before != Nil)
        invariant ParseFields(text, first, depth).Some? <==> ParseFields(text, cursor, depth).Some?
        invariant ParseFields(text, first, depth).Some? ==>
          && ParseFields(text, first, depth).value.1 == ParseFields(text, cursor, depth).value.1
          && (before != Nil ==> ParseFields(text, first, depth).value.0 != Nil)
        decreases |text| - cursor
      {
        ghost var at := cursor;
        ok := ReadType(depth, false);
        if !ok {
          return;
        }
        before := Cons(Parse(text, at, depth, false).value.0, before);
      }
      if cursor > first && cursor < |text| {
        cursor := cursor + 1;
        return true;
      }
      return false;
    }

    /** The key, the value and the closing brace of a dictionary entry. */
    method ReadEntry(depth: nat) returns (ok: bool)
      requires 0 < cursor <= |text| && text[cursor - 1] == '{' && depth > 0 && depth - 1 <= CONTAINER_DEPTH
      modifies this
      ensures ok <==> Parse(text, old(cursor) - 1, depth - 1, true).Some?
      ensures ok ==> cursor == Parse(text, old(cursor) - 1, depth - 1, true).value.1
      ensures cursor <= |text|
      decreases |text| - cursor, 1
    {
      if cursor == |text| || !IsBasic(text[cursor]) {
        return false;
      }
      ok := ReadType(depth, false);
      if !ok {
        return;
      }
      ok := ReadType(depth, false);
      if !ok || cursor == |text| || text[cursor] != '}' {
        return false;
      }
      cursor := cursor + 1;
    }
  }

  /** Accepts exactly the signatures of the supported subset; a single one has exactly one complete type. */
  method ValidSignature(signature: string, single: bool) returns (ok: bool)
    ensures ok <==> exists ts :: SignatureOf(signature, ts) && (single ==> Length(ts) == 1)
  {
    if |signature| > SIGNATURE_MAX {
      return false;
    }
    var parser := new SignatureParser(signature);
    var count := 0;
    ghost var whole := ParseAll(signature, 0);
    assert signature[0..] == signature;
    while parser.cursor < |signature|
      invariant parser.text == signature && parser.cursor <= |signature|
      invariant whole.Some? <==> ParseAll(signature, parser.cursor).Some?
      invariant whole.Some? ==> Length(whole.value) == count + Length(ParseAll(signature, parser.cursor).value)
      decreases |signature| - parser.cursor
    {
      var read := parser.ReadType(0, false);
      if !read {
        NoTypes(signature);
        return false;
      }
      count := count + 1;
    }
    ok := (!single || count == 1) && (!single || |signature| > 0);
    AllIsSound(signature, 0);
    assert SignatureOf(signature, whole.value);
    forall ts | SignatureOf(signature, ts)
      ensures ts == whole.value
    {
      SignatureIsUnique(signature, ts, whole.value);
    }
  }

  lemma {:induction false} NoTypes(signature: string)
    requires ParseAll(signature, 0).None?
    ensures forall ts :: !SignatureOf(signature, ts)
  {
    forall ts
      ensures !SignatureOf(signature, ts)
    {
      if SignatureOf(signature, ts) {
        assert signature[0..] == signature;
        AllPrinted(signature, 0, ts);
      }
    }
  }

  /** The end of the first complete type, if the text starts with one. */
  method OneTypeEnd(signature: string) returns (end: Option<nat>)
    ensures end.Some? <==> exists t :: At(signature, 0, Print(t)) && Good(t, false) && Height(t) <= CONTAINER_DEPTH
    ensures end.Some? ==>
      forall t | At(signature, 0, Print(t)) && Good(t, false) && Height(t) <= CONTAINER_DEPTH :: end.value == |Print(t)|
  {
    hide At, Print, Good, Height, Parse;
    var parser := new SignatureParser(signature);
    var ok := parser.ReadType(0, false);
    forall t | At(signature, 0, Print(t)) && Good(t, false) && Height(t) <= CONTAINER_DEPTH
      ensures Parse(signature, 0, 0, false) == Some((t, |Print(t)|))
    {
      ParsePrinted(signature, 0, t, 0, false);
    }
    if !ok {
      return None;
    }
    FirstTypeThere(signature);
    ghost var first := Parse(signature, 0, 0, false).value.0;
    assert At(signature, 0, Print(first)) && Good(first, false) && Height(first) <= CONTAINER_DEPTH;
    return Some(parser.cursor);
  }

  /** What the recognizer finds at the start of a text is a complete type printed there. */
  lemma {:induction false} FirstTypeThere(signature: string)
    requires Parse(signature, 0, 0, false).Some?
    ensures var t := Parse(signature, 0, 0, false).value.0;
            && At(signature, 0, Print(t)) && Good(t, false) && Height(t) <= CONTAINER_DEPTH
            && Parse(signature, 0, 0, false).value.1 == |Print(t)|
  {
    ParseIsSound(signature, 0, 0, false);
  }
}
