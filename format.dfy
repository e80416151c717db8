/** The field-type to format-string builder run on each object definition
    (uavtalk.js:190-225), with a reader for the strings it builds. */
module Format {
  import opened Wire

  /** One entry of a definition's `fields` array. */
  datatype FieldDef = FieldDef(name: string, ftype: int, numElements: int)

  /** The builder's outcome: the finished string, or the exception it throws on
      the first field whose type code it does not know. */
  datatype FormatResult = Format(s: string) | UnknownFieldType(code: int)

  /** The `bufferpack` code for each field type: int8, int16, int32, uint8, uint16,
      uint32, float and enum (stored as uint8). */
  function TypeCode(ftype: int): (c: Option<char>)
    ensures c.Some? <==> 0 <= ftype <= 7
  {
    if ftype == 0 then Some('b')
    else if ftype == 1 then Some('h')
    else if ftype == 2 then Some('i')
    else if ftype == 3 then Some('B')
    else if ftype == 4 then Some('H')
    else if ftype == 5 then Some('I')
    else if ftype == 6 then Some('f')
    else if ftype == 7 then Some('B')
    else None
  }

  predicate Known(f: FieldDef)
  {
    TypeCode(f.ftype).Some?
  }

  function DigitChar(d: nat): char
    requires d < 10
  {
    "0123456789"[d]
  }

  predicate IsDigit(c: char)
  {
    '0' <= c <= '9'
  }

  /** `n.toString(10)`. */
  function Decimal(n: nat): (s: string)
    ensures |s| > 0 && forall i :: 0 <= i < |s| ==> IsDigit(s[i])
  {
    if n < 10 then [DigitChar(n)] else Decimal(n / 10) + [DigitChar(n % 10)]
  }

  /** The token for one field: the element count when it exceeds one, the type
      code, and the field name in parentheses. */
  function Token(f: FieldDef, code: char): string
  {
    (if f.numElements > 1 then Decimal(f.numElements) else "") + [code] + "(" + f.name + ")"
  }

  /** The `_.each` loop: `unpackstr += u` for each field in order, stopping at the
      first unknown type code. */
  function Build(acc: string, fields: seq<FieldDef>): FormatResult
    decreases |fields|
  {
    if fields == [] then Format(acc)
    else match TypeCode(fields[0].ftype)
      case None => UnknownFieldType(fields[0].ftype)
      case Some(code) => Build(acc + Token(fields[0], code), fields[1..])
  }

  /** The string handed to `bufferpack` for a definition: `<` (little-endian, no
      padding) followed by the tokens. */
  function FormatString(fields: seq<FieldDef>): FormatResult
  {
    Build("<", fields)
  }

  /** The tokens of all fields, each on its own. */
  function Tokens(fields: seq<FieldDef>): string
    requires forall i :: 0 <= i < |fields| ==> Known(fields[i])
  {
    if fields == [] then []
    else
      assert Known(fields[0]);
      Token(fields[0], TypeCode(fields[0].ftype).value) + Tokens(fields[1..])
  }

  /** The fold appends exactly one token per field to what it started with. */
  lemma {:induction false} BuildIsTokens(acc: string, fields: seq<FieldDef>)
    requires forall i :: 0 <= i < |fields| ==> Known(fields[i])
    ensures Build(acc, fields) == Format(acc + Tokens(fields))
    decreases |fields|
  {
    if fields == [] {
      assert acc + [] == acc;
    } else {
      var t := Token(fields[0], TypeCode(fields[0].ftype).value);
      BuildIsTokens(acc + t, fields[1..]);
      assert acc + t + Tokens(fields[1..]) == acc + (t + Tokens(fields[1..]));
    }
  }

  /** When every type code is known the string is `<` and one token per field. */
  lemma FormatStringTokens(fields: seq<FieldDef>)
    requires forall i :: 0 <= i < |fields| ==> Known(fields[i])
    ensures FormatString(fields) == Format("<" + Tokens(fields))
  {
    BuildIsTokens("<", fields);
  }

  /** The builder throws at the first field with an unknown type code and reports
      that code, whatever follows it. */
  lemma {:induction false} BuildFailsAt(acc: string, fields: seq<FieldDef>, i: nat)
    requires i < |fields| && !Known(fields[i])
    requires forall j :: 0 <= j < i ==> Known(fields[j])
    ensures Build(acc, fields) == UnknownFieldType(fields[i].ftype)
    decreases i
  {
    if i > 0 {
      BuildFailsAt(acc + Token(fields[0], TypeCode(fields[0].ftype).value), fields[1..], i - 1);
    }
  }

  lemma FormatStringFailsAt(fields: seq<FieldDef>, i: nat)
    requires i < |fields| && !Known(fields[i])
    requires forall j :: 0 <= j < i ==> Known(fields[j])
    ensures FormatString(fields) == UnknownFieldType(fields[i].ftype)
  {
    BuildFailsAt("<", fields, i);
  }

  /** The builder succeeds exactly when every field's type code is one of 0..7. */
  lemma {:induction false} BuildSucceedsIff(acc: string, fields: seq<FieldDef>)
    ensures Build(acc, fields).Format? <==> forall i :: 0 <= i < |fields| ==> Known(fields[i])
    decreases |fields|
  {
    if fields != [] {
      if Known(fields[0]) {
        BuildSucceedsIff(acc + Token(fields[0], TypeCode(fields[0].ftype).value), fields[1..]);
        if forall i :: 0 <= i < |fields[1..]| ==> Known(fields[1..][i]) {
          forall i | 0 <= i < |fields| ensures Known(fields[i]) {
            if i > 0 { assert fields[i] == fields[1..][i - 1]; }
          }
        }
        assert (forall i :: 0 <= i < |fields| ==> Known(fields[i])) ==>
               (forall i :: 0 <= i < |fields[1..]| ==> Known(fields[1..][i]));
      }
    }
  }

  lemma FormatStringSucceedsIff(fields: seq<FieldDef>)
    ensures FormatString(fields).Format? <==> forall i :: 0 <= i < |fields| ==> Known(fields[i])
  {
    BuildSucceedsIff("<", fields);
  }

  // ---------------------------------------------------------------------------
  // Reading a format string back

  /** What a token tells `bufferpack`: how many values of which code, and the name. */
  datatype Slot = Slot(count: nat, code: char, name: string)

  function SlotOf(f: FieldDef): Slot
    requires Known(f)
  {
    Slot(if f.numElements > 1 then f.numElements else 1, TypeCode(f.ftype).value, f.name)
  }

  function Slots(fields: seq<FieldDef>): seq<Slot>
    requires forall i :: 0 <= i < |fields| ==> Known(fields[i])
  {
    if fields == [] then [] else [SlotOf(fields[0])] + Slots(fields[1..])
  }

  /** The value of a run of decimal digits. */
  function DecimalValue(s: string): nat
    requires forall i :: 0 <= i < |s| ==> IsDigit(s[i])
  {
    if s == [] then 0 else 10 * DecimalValue(s[..|s| - 1]) + DigitValue(s[|s| - 1])
  }

  function DigitValue(c: char): nat
    requires IsDigit(c)
  {
    c as int - '0' as int
  }

  lemma {:induction false} DecimalRoundTrip(n: nat)
    ensures DecimalValue(Decimal(n)) == n
  {
    if n >= 10 {
      var s := Decimal(n);
      DecimalRoundTrip(n / 10);
      assert s[..|s| - 1] == Decimal(n / 10);
    }
  }

  /** The number of leading digits. */
  function DigitRun(s: string): (k: nat)
    ensures k <= |s| && forall i :: 0 <= i < k ==> IsDigit(s[i])
    ensures k < |s| ==> !IsDigit(s[k])
  {
    if s != [] && IsDigit(s[0]) then 1 + DigitRun(s[1..]) else 0
  }

  /** The position of the first `)`, or the length when there is none. */
  function CloseParen(s: string): (k: nat)
    ensures k <= |s| && forall i :: 0 <= i < k ==> s[i] != ')'
    ensures k < |s| ==> s[k] == ')'
  {
    if s == [] || s[0] == ')' then 0 else 1 + CloseParen(s[1..])
  }

  /** Reads `[count] code ( name )` tokens until the string is used up; a missing
      count means one. */
  function ParseTokens(s: string): Option<seq<Slot>>
    decreases |s|
  {
    if s == [] then Some([])
    else
      var k := DigitRun(s);
      var digits, rest := s[..k], s[k..];
      if |rest| < 2 || rest[1] != '(' then None
      else
        var close := CloseParen(rest[2..]);
        if close == |rest[2..]| then None
        else
          var count := if k == 0 then 1 else DecimalValue(digits);
          var tail := ParseTokens(rest[2 + close + 1..]);
          if tail.None? then None
          else Some([Slot(count, rest[0], rest[2..2 + close])] + tail.value)
  }

  predicate PlainName(f: FieldDef)
  {
    forall i :: 0 <= i < |f.name| ==> f.name[i] != ')'
  }

  lemma DigitRunOfToken(ds: string, code: char, t: string)
    requires forall i :: 0 <= i < |ds| ==> IsDigit(ds[i])
    requires !IsDigit(code)
    ensures DigitRun(ds + [code] + t) == |ds|
    decreases |ds|
  {
    if ds != [] {
      assert (ds + [code] + t)[1..] == ds[1..] + [code] + t;
      DigitRunOfToken(ds[1..], code, t);
    }
  }

  lemma CloseParenOfName(name: string, t: string)
    requires forall i :: 0 <= i < |name| ==> name[i] != ')'
    ensures CloseParen(name + ")" + t) == |name|
    decreases |name|
  {
    if name != [] {
      assert (name + ")" + t)[1..] == name[1..] + ")" + t;
      CloseParenOfName(name[1..], t);
    }
  }

  /** Where the reader finds the pieces of one token: the digits, the code, the
      opening parenthesis, the name up to the closing one, and what follows. */
  lemma TokenShape(ds: string, code: char, name: string, t: string)
    requires forall i :: 0 <= i < |ds| ==> IsDigit(ds[i])
    requires !IsDigit(code)
    requires forall i :: 0 <= i < |name| ==> name[i] != ')'
    ensures var s := ds + [code] + "(" + name + ")" + t;
            var rest := s[|ds|..];
            && DigitRun(s) == |ds| && s[..|ds|] == ds
            && |rest| >= 2 && rest[0] == code && rest[1] == '('
            && CloseParen(rest[2..]) == |name| < |rest[2..]|
            && rest[2..2 + |name|] == name && rest[2 + |name| + 1..] == t
  {
    var after := "(" + name + ")" + t;
    var s := ds + [code] + after;
    assert s == ds + [code] + "(" + name + ")" + t;
    DigitRunOfToken(ds, code, after);
    assert s[..|ds|] == ds && s[|ds|..] == [code] + after;
    TokenTail(code, name, t);
  }

  /** The part of a token after its digits. */
  lemma TokenTail(code: char, name: string, t: string)
    requires forall i :: 0 <= i < |name| ==> name[i] != ')'
    ensures var rest := [code] + ("(" + name + ")" + t);
            && |rest| >= 2 && rest[0] == code && rest[1] == '('
            && CloseParen(rest[2..]) == |name| < |rest[2..]|
            && rest[2..2 + |name|] == name && rest[2 + |name| + 1..] == t
  {
    var rest := [code] + ("(" + name + ")" + t);
    assert rest[2..] == name + ")" + t;
    CloseParenOfName(name, t);
    assert rest[2..2 + |name|] == name;
    assert rest[2 + |name| + 1..] == t;
  }

  /** Reading one `[digits] code ( name )` token back. */
  lemma ParseOneToken(ds: string, code: char, name: string, t: string)
    requires forall i :: 0 <= i < |ds| ==> IsDigit(ds[i])
    requires !IsDigit(code)
    requires forall i :: 0 <= i < |name| ==> name[i] != ')'
    ensures var p := ParseTokens(t);
            ParseTokens(ds + [code] + "(" + name + ")" + t)
              == if p.None? then None else Some([Slot(if ds == [] then 1 else DecimalValue(ds), code, name)] + p.value)
  {
    TokenShape(ds, code, name, t);
  }

  /** Reading one field's token back gives its slot and leaves what followed it. */
  lemma ParseToken(f: FieldDef, t: string)
    requires Known(f) && PlainName(f)
    ensures var p := ParseTokens(t);
            ParseTokens(Token(f, TypeCode(f.ftype).value) + t) == if p.None? then None else Some([SlotOf(f)] + p.value)
  {
    var code := TypeCode(f.ftype).value;
    var ds := if f.numElements > 1 then Decimal(f.numElements) else "";
    assert Token(f, code) + t == ds + [code] + "(" + f.name + ")" + t;
    ParseOneToken(ds, code, f.name, t);
    if f.numElements > 1 {
      DecimalRoundTrip(f.numElements);
    }
  }

  /** Round trip: reading the built string back yields one slot per field, in
      order, with its element count, type code and name. */
  lemma {:induction false} ParseTokensRoundTrip(fields: seq<FieldDef>)
    requires forall i :: 0 <= i < |fields| ==> Known(fields[i]) && PlainName(fields[i])
    ensures ParseTokens(Tokens(fields)) == Some(Slots(fields))
    decreases |fields|
  {
    if fields != [] {
      ParseTokensRoundTrip(fields[1..]);
      ParseToken(fields[0], Tokens(fields[1..]));
    }
  }

  lemma FormatStringRoundTrip(fields: seq<FieldDef>)
    requires forall i :: 0 <= i < |fields| ==> Known(fields[i]) && PlainName(fields[i])
    ensures var r := FormatString(fields);
            r.Format? && |r.s| > 0 && r.s[0] == '<' && ParseTokens(r.s[1..]) == Some(Slots(fields))
  {
    FormatStringTokens(fields);
    ParseTokensRoundTrip(fields);
    assert ("<" + Tokens(fields))[1..] == Tokens(fields);
  }
}
