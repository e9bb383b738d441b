/**
 * JSON text as ECMA-262 section 25.5.2 (JSON.stringify, no indentation) writes it, and the
 * reader that undoes it. Every hashed body in the ledger is such a text, so what a digest can
 * commit to rests on the round trip proved here.
 *
 * Strings are sequences of Unicode scalar values; numbers are integers.
 */
module Json {
  import opened Prelude

  datatype Value =
    | Null
    | Bool(b: bool)
    | Num(n: int)
    | Str(s: string)
    | Arr(items: seq<Value>)
    | Obj(fields: seq<Field>)

  datatype Field = Field(key: string, value: Value)

  // ---------- writing ----------

  function Digit(d: int): char
    requires 0 <= d < 16
  {
    if d < 10 then '0' + (d as char) else 'a' + ((d - 10) as char)
  }

  /** Escapes of section 7 of RFC 8259: the two-character forms, \u00XX for other controls. */
  function EscapeChar(c: char): string {
    if c == '\"' then "\\\""
    else if c == '\\' then "\\\\"
    else if c == '\U{0008}' then "\\b"
    else if c == '\t' then "\\t"
    else if c == '\n' then "\\n"
    else if c == '\U{000C}' then "\\f"
    else if c == '\r' then "\\r"
    else if c < ' ' then "\\u00" + [Digit(c as int / 16), Digit(c as int % 16)]
    else [c]
  }

  function Escape(s: string): string {
    if |s| == 0 then "" else EscapeChar(s[0]) + Escape(s[1..])
  }

  function Quote(s: string): string {
    "\"" + Escape(s) + "\""
  }

  function PrintNat(n: nat): string {
    if n < 10 then [Digit(n)] else PrintNat(n / 10) + [Digit(n % 10)]
  }

  function PrintInt(n: int): string {
    if n < 0 then "-" + PrintNat(-n) else PrintNat(n)
  }

  function Print(v: Value): string {
    match v
    case Null => "null"
    case Bool(b) => if b then "true" else "false"
    case Num(n) => PrintInt(n)
    case Str(s) => Quote(s)
    case Arr(items) => if |items| == 0 then "[]" else "[" + PrintItems(items)
    case Obj(fields) => if |fields| == 0 then "{}" else "{" + PrintFields(fields)
  }

  /** The items, comma separated, with the closing bracket. */
  function PrintItems(items: seq<Value>): string
    requires |items| > 0
  {
    Print(items[0]) + if |items| == 1 then "]" else "," + PrintItems(items[1..])
  }

  function PrintFields(fields: seq<Field>): string
    requires |fields| > 0
  {
    Quote(fields[0].key) + ":" + Print(fields[0].value) +
    if |fields| == 1 then "}" else "," + PrintFields(fields[1..])
  }

  // ---------- reading ----------

  datatype Parsed<+T> = Fail | Read(value: T, rest: string)

  predicate IsDigit(c: char) {
    '0' <= c <= '9'
  }

  function HexValue(c: char): Option<int> {
    if '0' <= c <= '9' then Some(c as int - '0' as int)
    else if 'a' <= c <= 'f' then Some(c as int - 'a' as int + 10)
    else if 'A' <= c <= 'F' then Some(c as int - 'A' as int + 10)
    else None
  }

  function ReadHex(t: string, n: nat, acc: nat): Parsed<nat> {
    if n == 0 then Read(acc, t)
    else if |t| == 0 then Fail
    else
      match HexValue(t[0])
      case None => Fail
      case Some(d) => if d < 0 then Fail else ReadHex(t[1..], n - 1, 16 * acc + d)
  }

  /** One character of a string literal, escaped or not; a raw control character is refused. */
  function ReadChar(t: string): Parsed<char>
    requires |t| > 0
  {
    if t[0] != '\\' then (if t[0] < ' ' then Fail else Read(t[0], t[1..]))
    else if |t| < 2 then Fail
    else
      match t[1]
      case '\"' => Read('\"', t[2..])
      case '\\' => Read('\\', t[2..])
      case '/' => Read('/', t[2..])
      case 'b' => Read('\U{0008}', t[2..])
      case 't' => Read('\t', t[2..])
      case 'n' => Read('\n', t[2..])
      case 'f' => Read('\U{000C}', t[2..])
      case 'r' => Read('\r', t[2..])
      case 'u' =>
        (match ReadHex(t[2..], 4, 0)
         case Fail => Fail
         case Read(code, rest) =>
           if code < 0xD800 || 0xE000 <= code < 0x10000 then Read(code as char, rest) else Fail)
      case _ => Fail
  }

  lemma {:induction false} ReadHexShrinks(t: string, n: nat, acc: nat)
    ensures ReadHex(t, n, acc).Read? ==> |ReadHex(t, n, acc).rest| <= |t|
    decreases n
  {
    if n > 0 && |t| > 0 {
      match HexValue(t[0])
      case None =>
      case Some(d) => if d >= 0 { ReadHexShrinks(t[1..], n - 1, 16 * acc + d); }
    }
  }

  lemma ReadCharShrinks(t: string)
    requires |t| > 0
    ensures ReadChar(t).Read? ==> |ReadChar(t).rest| < |t|
  {
    if |t| >= 2 {
      ReadHexShrinks(t[2..], 4, 0);
    }
  }

  /** The characters of a literal whose opening quote has been consumed. */
  function ReadChars(t: string): Parsed<string>
    decreases |t|
  {
    if |t| == 0 then Fail
    else if t[0] == '\"' then Read("", t[1..])
    else
      match ReadChar(t)
      case Fail => Fail
      case Read(c, u) =>
        ReadCharShrinks(t);
        (match ReadChars(u)
         case Fail => Fail
         case Read(s, rest) => Read([c] + s, rest))
  }

  /** Reads the digits of a decimal numeral, most significant first. */
  function ReadDigits(t: string, acc: nat): (nat, string) {
    if |t| == 0 || !IsDigit(t[0]) then (acc, t)
    else ReadDigits(t[1..], 10 * acc + (t[0] as int - '0' as int))
  }

  lemma {:induction false} ReadDigitsShrinks(t: string, acc: nat)
    ensures |ReadDigits(t, acc).1| <= |t|
    ensures |t| > 0 && IsDigit(t[0]) ==> |ReadDigits(t, acc).1| < |t|
  {
    if |t| > 0 && IsDigit(t[0]) {
      ReadDigitsShrinks(t[1..], 10 * acc + (t[0] as int - '0' as int));
    }
  }

  function ReadInt(t: string): (r: Parsed<Value>)
    ensures r.Read? ==> |r.rest| < |t|
  {
    if |t| > 0 && IsDigit(t[0]) then
      ReadDigitsShrinks(t, 0);
      var (n, rest) := ReadDigits(t, 0);
      Read(Num(n), rest)
    else if |t| > 1 && t[0] == '-' && IsDigit(t[1]) then
      ReadDigitsShrinks(t[1..], 0);
      var (n, rest) := ReadDigits(t[1..], 0);
      Read(Num(0 - n as int), rest)
    else Fail
  }

  /** Reads one value from the front of the text; the first character decides its kind. */
  function ReadValue(t: string): (r: Parsed<Value>)
    ensures r.Read? ==> |r.rest| < |t|
    decreases |t|, 1
  {
    if |t| == 0 then Fail
    else if t[0] == 'n' then (if "null" <= t then Read(Null, t[4..]) else Fail)
    else if t[0] == 't' then (if "true" <= t then Read(Bool(true), t[4..]) else Fail)
    else if t[0] == 'f' then (if "false" <= t then Read(Bool(false), t[5..]) else Fail)
    else if t[0] == '\"' then ReadStr(t[1..])
    else if t[0] == '[' then ReadArr(t[1..])
    else if t[0] == '{' then ReadObj(t[1..])
    else ReadInt(t)
  }

  function ReadStr(t: string): (r: Parsed<Value>)
    ensures r.Read? ==> |r.rest| < |t|
  {
    ReadCharsShrinks(t);
    match ReadChars(t)
    case Fail => Fail
    case Read(s, rest) => Read(Str(s), rest)
  }

  /** The rest of an array or an object whose opening bracket has been consumed. */
  function ReadArr(t: string): (r: Parsed<Value>)
    ensures r.Read? ==> |r.rest| < |t|
    decreases |t|, 3
  {
    if |t| > 0 && t[0] == ']' then Read(Arr([]), t[1..])
    else
      match ReadItems(t)
      case Fail => Fail
      case Read(items, rest) => Read(Arr(items), rest)
  }

  function ReadObj(t: string): (r: Parsed<Value>)
    ensures r.Read? ==> |r.rest| < |t|
    decreases |t|, 3
  {
    if |t| > 0 && t[0] == '}' then Read(Obj([]), t[1..])
    else
      match ReadFields(t)
      case Fail => Fail
      case Read(fields, rest) => Read(Obj(fields), rest)
  }

  function ReadItems(t: string): (r: Parsed<seq<Value>>)
    ensures r.Read? ==> |r.rest| < |t|
    decreases |t|, 2
  {
    match ReadValue(t)
    case Fail => Fail
    case Read(v, u) =>
      if |u| == 0 then Fail
      else if u[0] == ']' then Read([v], u[1..])
      else if u[0] != ',' then Fail
      else
        match ReadItems(u[1..])
        case Fail => Fail
        case Read(vs, rest) => Read([v] + vs, rest)
  }

  function ReadFields(t: string): (r: Parsed<seq<Field>>)
    ensures r.Read? ==> |r.rest| < |t|
    decreases |t|, 2
  {
    if |t| == 0 || t[0] != '\"' then Fail
    else
      ReadCharsShrinks(t[1..]);
      match ReadChars(t[1..])
      case Fail => Fail
      case Read(key, u) =>
        if |u| == 0 || u[0] != ':' then Fail
        else
          match ReadValue(u[1..])
          case Fail => Fail
          case Read(v, w) =>
            if |w| == 0 then Fail
            else if w[0] == '}' then Read([Field(key, v)], w[1..])
            else if w[0] != ',' then Fail
            else
              match ReadFields(w[1..])
              case Fail => Fail
              case Read(fs, rest) => Read([Field(key, v)] + fs, rest)
  }

  lemma {:induction false} ReadCharsShrinks(t: string)
    ensures ReadChars(t).Read? ==> |ReadChars(t).rest| < |t|
    decreases |t|
  {
    if |t| > 0 && t[0] != '\"' {
      ReadCharShrinks(t);
      match ReadChar(t)
      case Fail =>
      case Read(_, u) => ReadCharsShrinks(u);
    }
  }

  /** JSON.parse: one value and nothing after it. */
  function Parse(t: string): Option<Value> {
    match ReadValue(t)
    case Fail => None
    case Read(v, rest) => if rest == "" then Some(v) else None
  }

  // ---------- round trip ----------

  lemma ReadCharEscape(c: char, u: string)
    ensures |EscapeChar(c)| > 0 && EscapeChar(c)[0] != '\"' && EscapeChar(c)[0] >= ' '
    ensures ReadChar(EscapeChar(c) + u) == Read(c, u)
  {
    var t := EscapeChar(c) + u;
    if c == '\"' || c == '\\' || c == '\U{0008}' || c == '\t' || c == '\n' || c == '\U{000C}' || c == '\r' {
      assert t[2..] == u;
    } else if c < ' ' {
      var hi, lo := Digit(c as int / 16), Digit(c as int % 16);
      assert t[2..] == ['0', '0', hi, lo] + u;
      assert t[2..][1..] == ['0', hi, lo] + u;
      assert t[2..][1..][1..] == [hi, lo] + u;
      assert t[2..][1..][1..][1..] == [lo] + u;
      assert t[2..][1..][1..][1..][1..] == u;
      assert ReadHex(t[2..][1..][1..][1..], 1, c as int / 16) == Read(c as nat, u);
      assert ReadHex(t[2..][1..][1..], 2, 0) == Read(c as nat, u);
      assert ReadHex(t[2..][1..], 3, 0) == Read(c as nat, u);
      assert ReadHex(t[2..], 4, 0) == Read(c as nat, u);
    } else {
      assert t[1..] == u;
    }
  }

  /** A parse whose text has some characters put in front. */
  function Prefixed(s: string, r: Parsed<string>): Parsed<string> {
    match r
    case Fail => Fail
    case Read(t, rest) => Read(s + t, rest)
  }

  lemma ReadCharsStep(c: char, u: string)
    ensures ReadChars(EscapeChar(c) + u) == Prefixed([c], ReadChars(u))
  {
    ReadCharEscape(c, u);
  }

  lemma EscapeCons(s: string, after: string)
    requires |s| > 0
    ensures Escape(s) + after == EscapeChar(s[0]) + (Escape(s[1..]) + after)
  {
    RegroupThree(EscapeChar(s[0]), Escape(s[1..]), after);
  }

  /** Reading past escaped characters yields them, then whatever the rest reads as. */
  lemma {:induction false} ReadCharsEscape(s: string, q: string)
    ensures ReadChars(Escape(s) + q) == Prefixed(s, ReadChars(q))
  {
    if |s| == 0 {
      assert Escape(s) + q == q;
      PrefixedEmpty(ReadChars(q));
    } else {
      ReadCharsEscape(s[1..], q);
      ReadCharsStep(s[0], Escape(s[1..]) + q);
      EscapeCons(s, q);
      PrefixedTwice([s[0]], s[1..], ReadChars(q));
      assert [s[0]] + s[1..] == s;
    }
  }

  lemma PrefixedTwice(s: string, t: string, r: Parsed<string>)
    ensures Prefixed(s, Prefixed(t, r)) == Prefixed(s + t, r)
  {
    if r.Read? {
      RegroupThree(s, t, r.value);
    }
  }

  lemma PrefixedEmpty(r: Parsed<string>)
    ensures Prefixed("", r) == r
  {
    if r.Read? {
      assert "" + r.value == r.value;
    }
  }

  lemma Behind(c: char, t: string)
    ensures ([c] + t)[1..] == t
  {
  }

  lemma ReadCharsQuote(s: string, rest: string)
    ensures |Quote(s)| > 0 && Quote(s)[0] == '\"'
    ensures ReadChars((Quote(s) + rest)[1..]) == Read(s, rest)
  {
    var q := "\"" + rest;
    Behind('\"', rest);
    assert ReadChars(q) == Read("", rest);
    ReadCharsEscape(s, q);
    assert s + "" == s;
    QuoteText(s, rest);
    Behind('\"', Escape(s) + q);
  }

  lemma QuoteText(s: string, rest: string)
    ensures Quote(s) + rest == "\"" + (Escape(s) + ("\"" + rest))
  {
    RegroupThree("\"" + Escape(s), "\"", rest);
    RegroupThree("\"", Escape(s), "\"" + rest);
  }

  predicate StartsWithDigit(t: string) {
    |t| > 0 && IsDigit(t[0])
  }

  /** Reading past a printed numeral leaves its value in the accumulator. */
  lemma {:induction false} ReadDigitsPrintNat(n: nat, rest: string)
    ensures StartsWithDigit(PrintNat(n))
    ensures ReadDigits(PrintNat(n) + rest, 0) == ReadDigits(rest, n)
    decreases n
  {
    var d := Digit(n % 10);
    Behind(d, rest);
    if n >= 10 {
      ReadDigitsPrintNat(n / 10, [d] + rest);
      RegroupThree(PrintNat(n / 10), [d], rest);
    }
  }

  lemma ReadIntPrintInt(n: int, rest: string)
    requires !StartsWithDigit(rest)
    ensures |PrintInt(n)| > 0 && (IsDigit(PrintInt(n)[0]) || PrintInt(n)[0] == '-')
    ensures ReadInt(PrintInt(n) + rest) == Read(Num(n), rest)
  {
    if n < 0 {
      ReadDigitsPrintNat(-n, rest);
      RegroupThree("-", PrintNat(-n), rest);
      Behind('-', PrintNat(-n) + rest);
    } else {
      ReadDigitsPrintNat(n, rest);
    }
  }

  /** What may follow a printed value: anything, but no digit directly after a number. */
  predicate MayFollow(v: Value, rest: string) {
    v.Num? ==> !StartsWithDigit(rest)
  }

  lemma ReadPrintScalar(v: Value, rest: string)
    requires MayFollow(v, rest) && !v.Arr? && !v.Obj?
    ensures ReadValue(Print(v) + rest) == Read(v, rest)
  {
    var t := Print(v) + rest;
    match v
    case Null => assert t[4..] == rest;
    case Bool(b) => assert t[if b then 4 else 5..] == rest;
    case Num(n) => ReadIntPrintInt(n, rest);
    case Str(s) => ReadCharsQuote(s, rest);
  }

  lemma ReadBracket(body: string)
    ensures ReadValue("[" + body) == ReadArr(body) && ReadValue("{" + body) == ReadObj(body)
  {
    assert ("[" + body)[1..] == body && ("{" + body)[1..] == body;
  }

  lemma ReadEmpty(rest: string)
    ensures ReadValue("[]" + rest) == Read(Arr([]), rest)
    ensures ReadValue("{}" + rest) == Read(Obj([]), rest)
  {
    ReadBracket("]" + rest);
    ReadBracket("}" + rest);
    RegroupThree("[", "]", rest);
    RegroupThree("{", "}", rest);
    assert "[]" == "[" + "]" && "{}" == "{" + "}";
    assert ("]" + rest)[1..] == rest && ("}" + rest)[1..] == rest;
  }

  lemma PrintFirst(v: Value)
    ensures |Print(v)| > 0 && Print(v)[0] != ']' && Print(v)[0] != '}'
  {
    match v
    case Num(n) => ReadIntPrintInt(n, "");
    case _ =>
  }

  lemma PrintFieldsFirst(fields: seq<Field>, rest: string)
    requires |fields| > 0
    ensures |PrintFields(fields) + rest| > 0 && (PrintFields(fields) + rest)[0] == '\"'
  {
    assert PrintFields(fields)[0] == Quote(fields[0].key)[0];
  }

  lemma PrintItemsFirst(items: seq<Value>, rest: string)
    requires |items| > 0
    ensures |PrintItems(items) + rest| > 0 && (PrintItems(items) + rest)[0] != ']'
  {
    PrintFirst(items[0]);
    assert PrintItems(items)[0] == Print(items[0])[0];
  }

  lemma Regroup(a: string, b: string, c: string, d: string, e: string)
    ensures a + b + c + d + e == a + (b + (c + (d + e)))
  {
  }

  lemma RegroupThree(a: string, b: string, c: string)
    ensures a + b + c == a + (b + c)
  {
  }

  /** The text of a last field and of an earlier one, as the reader meets them. */
  lemma LastFieldText(f: Field, rest: string)
    ensures PrintFields([f]) + rest == Quote(f.key) + (":" + (Print(f.value) + ("}" + rest)))
  {
    Regroup(Quote(f.key), ":", Print(f.value), "}", rest);
  }

  lemma PrintFieldsCons(f: Field, fs: seq<Field>)
    requires |fs| > 0
    ensures PrintFields([f] + fs) == Quote(f.key) + ":" + Print(f.value) + ("," + PrintFields(fs))
  {
    assert ([f] + fs)[1..] == fs;
  }

  lemma FirstFieldText(f: Field, fs: seq<Field>, rest: string)
    requires |fs| > 0
    ensures PrintFields([f] + fs) + rest ==
            Quote(f.key) + (":" + (Print(f.value) + ("," + (PrintFields(fs) + rest))))
  {
    PrintFieldsCons(f, fs);
    Regroup(Quote(f.key), ":", Print(f.value), "," + PrintFields(fs), rest);
    RegroupThree(",", PrintFields(fs), rest);
  }

  lemma PrintArrText(items: seq<Value>, rest: string)
    requires |items| > 0
    ensures Print(Arr(items)) + rest == "[" + (PrintItems(items) + rest)
  {
  }

  lemma PrintObjText(fields: seq<Field>, rest: string)
    requires |fields| > 0
    ensures Print(Obj(fields)) + rest == "{" + (PrintFields(fields) + rest)
  {
  }

  /** Reading undoes printing, whatever text follows. */
  lemma {:induction false} ReadPrint(v: Value, rest: string)
    requires MayFollow(v, rest)
    ensures ReadValue(Print(v) + rest) == Read(v, rest)
    decreases v, 1
  {
    match v
    case Arr(items) => ReadPrintArr(items, rest);
    case Obj(fields) => ReadPrintObj(fields, rest);
    case _ => ReadPrintScalar(v, rest);
  }

  lemma {:induction false} ReadPrintArr(items: seq<Value>, rest: string)
    ensures ReadValue(Print(Arr(items)) + rest) == Read(Arr(items), rest)
    decreases items, 1
  {
    if |items| == 0 {
      ReadEmpty(rest);
    } else {
      PrintArrText(items, rest);
      PrintItemsFirst(items, rest);
      ReadPrintItems(items, rest);
      ReadBracket(PrintItems(items) + rest);
    }
  }

  lemma {:induction false} ReadPrintObj(fields: seq<Field>, rest: string)
    ensures ReadValue(Print(Obj(fields)) + rest) == Read(Obj(fields), rest)
    decreases fields, 1
  {
    if |fields| == 0 {
      ReadEmpty(rest);
    } else {
      PrintObjText(fields, rest);
      PrintFieldsFirst(fields, rest);
      ReadPrintFields(fields, rest);
      ReadBracket(PrintFields(fields) + rest);
    }
  }

  lemma ReadLastItem(v: Value, rest: string)
    requires ReadValue(Print(v) + ("]" + rest)) == Read(v, "]" + rest)
    ensures ReadItems(PrintItems([v]) + rest) == Read([v], rest)
  {
    RegroupThree(Print(v), "]", rest);
    assert ("]" + rest)[1..] == rest;
  }

  lemma PrintItemsCons(v: Value, vs: seq<Value>, rest: string)
    requires |vs| > 0
    ensures PrintItems([v] + vs) + rest == Print(v) + ("," + (PrintItems(vs) + rest))
  {
    assert ([v] + vs)[1..] == vs;
    RegroupThree(Print(v), "," + PrintItems(vs), rest);
    RegroupThree(",", PrintItems(vs), rest);
  }

  lemma ReadItemAndMore(v: Value, more: string, vs: seq<Value>, rest: string)
    requires ReadValue(Print(v) + ("," + more)) == Read(v, "," + more)
    requires ReadItems(more) == Read(vs, rest)
    ensures ReadItems(Print(v) + ("," + more)) == Read([v] + vs, rest)
  {
    assert ("," + more)[1..] == more;
  }

  lemma {:induction false} ReadPrintItems(items: seq<Value>, rest: string)
    requires |items| > 0
    ensures ReadItems(PrintItems(items) + rest) == Read(items, rest)
    decreases items, 0
  {
    var v, vs := items[0], items[1..];
    assert items == [v] + vs;
    if |vs| == 0 {
      ReadPrint(v, "]" + rest);
      ReadLastItem(v, rest);
      assert items == [v];
    } else {
      ReadPrint(v, "," + (PrintItems(vs) + rest));
      ReadPrintItems(vs, rest);
      ReadItemAndMore(v, PrintItems(vs) + rest, vs, rest);
      PrintItemsCons(v, vs, rest);
    }
  }

  /** One field read: the key, a colon, the value, then whatever the rest reads as. */
  lemma ReadOneField(f: Field, after: string)
    requires MayFollow(f.value, after) && |after| > 0
    requires ReadValue(Print(f.value) + after) == Read(f.value, after)
    ensures ReadFields(Quote(f.key) + (":" + (Print(f.value) + after))) ==
            if after[0] == '}' then Read([f], after[1..])
            else if after[0] != ',' then Fail
            else match ReadFields(after[1..])
              case Fail => Fail
              case Read(fs, rest) => Read([f] + fs, rest)
  {
    var u := ":" + (Print(f.value) + after);
    ReadCharsQuote(f.key, u);
    assert u[1..] == Print(f.value) + after;
  }

  lemma ReadLastField(f: Field, rest: string)
    requires ReadValue(Print(f.value) + ("}" + rest)) == Read(f.value, "}" + rest)
    ensures ReadFields(Quote(f.key) + (":" + (Print(f.value) + ("}" + rest)))) == Read([f], rest)
  {
    ReadOneField(f, "}" + rest);
    assert ("}" + rest)[1..] == rest;
  }

  lemma ReadFieldAndMore(f: Field, more: string, fs: seq<Field>, rest: string)
    requires ReadValue(Print(f.value) + ("," + more)) == Read(f.value, "," + more)
    requires ReadFields(more) == Read(fs, rest)
    ensures ReadFields(Quote(f.key) + (":" + (Print(f.value) + ("," + more)))) == Read([f] + fs, rest)
  {
    ReadOneField(f, "," + more);
    assert ("," + more)[1..] == more;
  }

  lemma {:induction false} ReadPrintFields(fields: seq<Field>, rest: string)
    requires |fields| > 0
    ensures ReadFields(PrintFields(fields) + rest) == Read(fields, rest)
    decreases fields, 0
  {
    var f, fs := fields[0], fields[1..];
    assert fields == [f] + fs;
    if |fs| == 0 {
      ReadPrint(f.value, "}" + rest);
      ReadLastField(f, rest);
      LastFieldText(f, rest);
      assert fields == [f];
    } else {
      var more := PrintFields(fs) + rest;
      ReadPrint(f.value, "," + more);
      ReadPrintFields(fs, rest);
      ReadFieldAndMore(f, more, fs, rest);
      FirstFieldText(f, fs, rest);
    }
  }

  lemma ParsePrint(v: Value)
    ensures Parse(Print(v)) == Some(v)
  {
    ReadPrint(v, "");
    assert Print(v) + "" == Print(v);
  }

  /** Distinct values have distinct texts. */
  lemma PrintInjective(v: Value, w: Value)
    requires Print(v) == Print(w)
    ensures v == w
  {
    ParsePrint(v);
    ParsePrint(w);
  }

  // ---------- printed text is one line ----------

  /** No control characters, so no line break. */
  predicate OneLine(t: string) {
    forall i: nat :: i < |t| ==> t[i] >= ' '
  }

  lemma OneLineConcat(a: string, b: string)
    requires OneLine(a) && OneLine(b)
    ensures OneLine(a + b)
  {
  }

  lemma {:induction false} EscapeOneLine(s: string)
    ensures OneLine(Escape(s))
  {
    if |s| > 0 {
      EscapeOneLine(s[1..]);
      OneLineConcat(EscapeChar(s[0]), Escape(s[1..]));
    }
  }

  lemma QuoteOneLine(s: string)
    ensures OneLine(Quote(s))
  {
    EscapeOneLine(s);
  }

  lemma {:induction false} PrintNatOneLine(n: nat)
    ensures OneLine(PrintNat(n))
  {
    if n >= 10 {
      PrintNatOneLine(n / 10);
      OneLineConcat(PrintNat(n / 10), [Digit(n % 10)]);
    }
  }

  lemma {:induction false} PrintOneLine(v: Value)
    ensures OneLine(Print(v))
    decreases v
  {
    match v
    case Num(n) => PrintNatOneLine(if n < 0 then -n else n);
    case Str(s) => QuoteOneLine(s);
    case Arr(items) => if |items| > 0 { PrintItemsOneLine(items); }
    case Obj(fields) => if |fields| > 0 { PrintFieldsOneLine(fields); }
    case _ =>
  }

  lemma {:induction false} PrintItemsOneLine(items: seq<Value>)
    requires |items| > 0
    ensures OneLine(PrintItems(items))
    decreases items
  {
    PrintOneLine(items[0]);
    if |items| > 1 {
      PrintItemsOneLine(items[1..]);
      OneLineConcat(",", PrintItems(items[1..]));
      OneLineConcat(Print(items[0]), "," + PrintItems(items[1..]));
    }
  }

  lemma {:induction false} PrintFieldsOneLine(fields: seq<Field>)
    requires |fields| > 0
    ensures OneLine(PrintFields(fields))
    decreases fields
  {
    var f := fields[0];
    QuoteOneLine(f.key);
    PrintOneLine(f.value);
    OneLineConcat(Quote(f.key), ":");
    OneLineConcat(Quote(f.key) + ":", Print(f.value));
    if |fields| > 1 {
      PrintFieldsOneLine(fields[1..]);
      OneLineConcat(",", PrintFields(fields[1..]));
      OneLineConcat(Quote(f.key) + ":" + Print(f.value), "," + PrintFields(fields[1..]));
    }
  }

  // ---------- property access ----------

  /** The value a key has, or None: the last field wins, as in JSON.parse. */
  function Get(fields: seq<Field>, key: string): Option<Value> {
    if |fields| == 0 then None
    else if Last(fields).key == key then Some(Last(fields).value)
    else Get(Init(fields), key)
  }

  /** A key that does not occur again later has the value it has there. */
  lemma {:induction false} GetAt(fields: seq<Field>, k: nat)
    requires k < |fields| && forall j: nat :: k < j < |fields| ==> fields[j].key != fields[k].key
    ensures Get(fields, fields[k].key) == Some(fields[k].value)
  {
    if k < |fields| - 1 {
      GetAt(Init(fields), k);
    }
  }

  // ---------- the exact text ----------

  lemma StrPrints(s: string)
    ensures Print(Str(s)) == Quote(s)
  {
  }

  lemma NumPrints(n: int)
    ensures Print(Num(n)) == PrintInt(n)
  {
  }

  lemma OnePrints()
    ensures PrintInt(1) == "1"
  {
  }

  /** An object's text from its keys and the texts of its values. */
  function ObjectText(members: seq<(string, string)>): string
    requires |members| > 0
  {
    "{" + MembersText(members)
  }

  function MembersText(members: seq<(string, string)>): string
    requires |members| > 0
  {
    Quote(members[0].0) + ":" + members[0].1 + if |members| == 1 then "}" else "," + MembersText(members[1..])
  }

  function Members(fields: seq<Field>): (r: seq<(string, string)>)
    ensures |r| == |fields|
    ensures forall i :: 0 <= i < |fields| ==> r[i] == (fields[i].key, Print(fields[i].value))
  {
    seq(|fields|, i requires 0 <= i < |fields| => (fields[i].key, Print(fields[i].value)))
  }

  lemma {:induction false} PrintIsObjectText(fields: seq<Field>)
    requires |fields| > 0
    ensures Print(Obj(fields)) == ObjectText(Members(fields))
  {
    PrintFieldsIsMembersText(fields);
  }

  lemma {:induction false} PrintFieldsIsMembersText(fields: seq<Field>)
    requires |fields| > 0
    ensures PrintFields(fields) == MembersText(Members(fields))
  {
    if |fields| > 1 {
      PrintFieldsIsMembersText(fields[1..]);
      assert Members(fields)[1..] == Members(fields[1..]);
    }
  }

  /** An array's text from the texts of its items. */
  function ArrayText(items: seq<string>): string {
    if |items| == 0 then "[]" else "[" + ItemsText(items)
  }

  function ItemsText(items: seq<string>): string
    requires |items| > 0
  {
    items[0] + if |items| == 1 then "]" else "," + ItemsText(items[1..])
  }

  function Printed(items: seq<Value>): (r: seq<string>)
    ensures |r| == |items| && forall i :: 0 <= i < |items| ==> r[i] == Print(items[i])
  {
    seq(|items|, i requires 0 <= i < |items| => Print(items[i]))
  }

  lemma {:induction false} PrintIsArrayText(items: seq<Value>)
    ensures Print(Arr(items)) == ArrayText(Printed(items))
  {
    if |items| > 0 {
      PrintItemsIsItemsText(items);
    }
  }

  lemma {:induction false} PrintItemsIsItemsText(items: seq<Value>)
    requires |items| > 0
    ensures PrintItems(items) == ItemsText(Printed(items))
  {
    if |items| > 1 {
      PrintItemsIsItemsText(items[1..]);
      assert Printed(items)[1..] == Printed(items[1..]);
    }
  }

  /** No quote, no backslash, no control character. */
  ghost predicate Plain(s: string) {
    forall c :: c in s ==> c != '\"' && c != '\\' && c >= ' '
  }

  /** Plain text is printed as it is, between quotes. */
  lemma {:induction false} PlainTextPrintsAsItself(s: string)
    requires Plain(s)
    ensures Print(Str(s)) == "\"" + s + "\""
  {
    PlainEscape(s);
  }

  lemma PlainChar(c: char)
    requires c != '\"' && c != '\\' && c >= ' '
    ensures EscapeChar(c) == [c]
  {
  }

  lemma {:induction false} PlainEscape(s: string)
    requires Plain(s)
    ensures Escape(s) == s
  {
    hide EscapeChar;
    if |s| > 0 {
      assert s[0] in s && forall c :: c in s[1..] ==> c in s;
      PlainEscape(s[1..]);
      PlainChar(s[0]);
      assert s == [s[0]] + s[1..];
    }
  }

  /** The other characters: five two-character escapes, quote and backslash, and four lower-case hex digits for the rest. */
  lemma EscapesAreThese(c: char)
    ensures EscapeChar('\"') == ['\\', '\"'] && EscapeChar('\\') == ['\\', '\\']
    ensures EscapeChar(8 as char) == "\\b" && EscapeChar(9 as char) == "\\t" && EscapeChar(10 as char) == "\\n"
    ensures EscapeChar(12 as char) == "\\f" && EscapeChar(13 as char) == "\\r"
    ensures c < ' ' && c as int !in {8, 9, 10, 12, 13} ==>
              EscapeChar(c) == "\\u00" + ["0123456789abcdef"[c as int / 16], "0123456789abcdef"[c as int % 16]]
  {
  }

  /** Integers are written in decimal, the value recovered by ReadDigits, without leading zeros. */
  lemma {:induction false} NoLeadingZeros(n: nat)
    ensures |PrintNat(n)| > 0 && (n > 0 ==> PrintNat(n)[0] != '0') && (n == 0 ==> PrintNat(n) == "0")
    ensures forall c :: c in PrintNat(n) ==> '0' <= c <= '9'
  {
    if n >= 10 {
      NoLeadingZeros(n / 10);
    }
  }

  lemma ScalarsAndBrackets(v: Value, w: Value, n: int)
    ensures Print(Null) == "null" && Print(Bool(true)) == "true" && Print(Bool(false)) == "false"
    ensures Print(Arr([])) == "[]" && Print(Obj([])) == "{}"
    ensures Print(Arr([v])) == "[" + (Print(v) + "]")
    ensures Print(Arr([v, w])) == "[" + (Print(v) + ("," + (Print(w) + "]")))
    ensures n > 0 ==> Print(Num(0 - n)) == "-" + Print(Num(n))
  {
    assert [v, w][1..] == [w];
    assert PrintItems([w]) == Print(w) + "]";
  }
}
