/**
 * JSON values and Python's `json.dumps` with its default settings
 * (`ensure_ascii=True`, item separator `", "`, key separator `": "`,
 * object members in insertion order), plus the string-escape decoder
 * that `json.loads` applies, which undoes the encoder.
 */
module Json {
  import opened Wrappers
  import Strings

  datatype Value =
    | JNull
    | JBool(b: bool)
    | JInt(i: int)
    | JStr(s: string)
    | JArr(items: seq<Value>)
    | JObj(members: seq<(string, Value)>)

  /** Python's `key in d.keys()` for a decoded object. */
  predicate HasKey(members: seq<(string, Value)>, key: string)
  {
    exists k :: 0 <= k < |members| && members[k].0 == key
  }

  /** Python's `d[key]` on a decoded object: a repeated key keeps its last value. */
  function Lookup(members: seq<(string, Value)>, key: string): (r: Option<Value>)
    ensures r.Some? <==> HasKey(members, key)
    ensures r.Some? ==> exists k :: 0 <= k < |members| && members[k] == (key, r.value)
                                    && forall j :: k < j < |members| ==> members[j].0 != key
  {
    if |members| == 0 then None
    else
      var last := members[|members| - 1];
      if last.0 == key then
        assert members[|members| - 1] == (key, last.1);
        Some(last.1)
      else
        var r := Lookup(members[..|members| - 1], key);
        assert forall k :: 0 <= k < |members| - 1 ==> members[..|members| - 1][k] == members[k];
        r
  }

  /** Python's `str(i)` for an integer. */
  function IntToString(i: int): string
  {
    if i < 0 then "-" + Strings.NatToString(-i) else Strings.NatToString(i)
  }

  const HexDigits: string := "0123456789abcdef"

  /** Two lower-case hexadecimal digits. */
  function Hex2(m: nat): (r: string)
    requires m < 0x100
    ensures |r| == 2
  {
    [HexDigits[m / 16], HexDigits[m % 16]]
  }

  /** `"%04x" % n`: four lower-case hexadecimal digits. */
  function Hex4(n: nat): (r: string)
    requires n < 0x10000
    ensures |r| == 4
  {
    Hex2(n / 0x100) + Hex2(n % 0x100)
  }

  /** The value of one hexadecimal digit, either case. */
  function HexValue(c: char): (r: Option<nat>)
    ensures r.Some? ==> r.value < 16
  {
    if '0' <= c <= '9' then Some(c as int - '0' as int)
    else if 'a' <= c <= 'f' then Some(c as int - 'a' as int + 10)
    else if 'A' <= c <= 'F' then Some(c as int - 'A' as int + 10)
    else None
  }

  function Hex2Value(t: string): (r: Option<nat>)
    requires |t| == 2
    ensures r.Some? ==> r.value < 0x100
  {
    match (HexValue(t[0]), HexValue(t[1]))
    case (Some(a), Some(b)) => Some(a * 16 + b)
    case _ => None
  }

  /** The value of four hexadecimal digits. */
  function Hex4Value(t: string): (r: Option<nat>)
    requires |t| == 4
    ensures r.Some? ==> r.value < 0x10000
  {
    match (Hex2Value(t[..2]), Hex2Value(t[2..]))
    case (Some(a), Some(b)) => Some(a * 0x100 + b)
    case _ => None
  }

  lemma Hex2RoundTrip(m: nat)
    requires m < 0x100
    ensures Hex2Value(Hex2(m)) == Some(m)
  {
    HexDigitValue(m / 16);
    HexDigitValue(m % 16);
  }

  lemma Hex4RoundTrip(n: nat)
    requires n < 0x10000
    ensures Hex4Value(Hex4(n)) == Some(n)
  {
    var t := Hex4(n);
    assert t[..2] == Hex2(n / 0x100) && t[2..] == Hex2(n % 0x100);
    Hex2RoundTrip(n / 0x100);
    Hex2RoundTrip(n % 0x100);
  }

  lemma HexDigitValue(d: nat)
    requires d < 16
    ensures HexValue(HexDigits[d]) == Some(d)
  {
  }

  /** The characters `json.dumps` writes unescaped: printable ASCII other than `"` and backslash. */
  predicate Plain(c: char)
  {
    ' ' <= c <= '~' && c != '"' && c != '\\'
  }

  /** How `json.dumps` writes one character of a string. */
  function EscapeChar(c: char): string
  {
    if c == '"' then "\\\""
    else if c == '\\' then "\\\\"
    else if c == '\n' then "\\n"
    else if c == '\r' then "\\r"
    else if c == '\t' then "\\t"
    else if c == '\U{8}' then "\\b"
    else if c == '\U{c}' then "\\f"
    else if Plain(c) then [c]
    else if (c as int) < 0x10000 then "\\u" + Hex4(c as int)
    else SurrogatePair(c)
  }

  /** The body of a JSON string literal for `s`. */
  function Escape(s: string): string
  {
    if |s| == 0 then "" else EscapeChar(s[0]) + Escape(s[1..])
  }

  predicate Printable(t: string)
  {
    forall k :: 0 <= k < |t| ==> ' ' <= t[k] <= '~'
  }

  lemma PrintableConcat(a: string, b: string)
    requires Printable(a) && Printable(b)
    ensures Printable(a + b)
  {
    assert forall k :: |a| <= k < |a + b| ==> (a + b)[k] == b[k - |a|];
  }

  lemma Hex4Printable(n: nat)
    requires n < 0x10000
    ensures Printable(Hex4(n))
  {
  }

  /** A `\\uXXXX` escape is printable. */
  lemma UnicodeEscapePrintable(n: nat)
    requires n < 0x10000
    ensures Printable("\\u" + Hex4(n))
  {
    Hex4Printable(n);
    PrintableConcat("\\u", Hex4(n));
  }

  /** A surrogate pair of escapes is printable. */
  lemma PairPrintable(c: char)
    requires (c as int) >= 0x10000
    ensures Printable(SurrogatePair(c))
  {
    var hi, lo := High(c), Low(c);
    UnicodeEscapePrintable(hi);
    UnicodeEscapePrintable(lo);
    PrintableConcat("\\u" + Hex4(hi), "\\u" + Hex4(lo));
    assert "\\u" + Hex4(hi) + "\\u" + Hex4(lo) == ("\\u" + Hex4(hi)) + ("\\u" + Hex4(lo));
  }

  lemma EscapeCharPrintable(c: char)
    ensures Printable(EscapeChar(c))
  {
    if (c as int) >= 0x10000 {
      EscapeAstral(c);
      PairPrintable(c);
    } else if !Plain(c) && c != '"' && c != '\\' && c != '\n' && c != '\r' && c != '\t' && c != '\U{8}' && c != '\U{c}' {
      assert EscapeChar(c) == "\\u" + Hex4(c as int);
      UnicodeEscapePrintable(c as int);
    }
  }

  /** `json.dumps` writes every string as printable ASCII (`ensure_ascii`). */
  lemma {:induction false} EscapePrintable(s: string)
    ensures Printable(Escape(s))
    decreases |s|
  {
    if |s| > 0 {
      EscapeCharPrintable(s[0]);
      EscapePrintable(s[1..]);
      PrintableConcat(EscapeChar(s[0]), Escape(s[1..]));
    }
  }

  /** The character a backslash followed by `e` stands for, for the one-letter escapes. */
  function SimpleEscape(e: char): Option<char>
  {
    if e == '"' then Some('"') else if e == '\\' then Some('\\') else if e == '/' then Some('/')
    else if e == 'n' then Some('\n') else if e == 'r' then Some('\r') else if e == 't' then Some('\t')
    else if e == 'b' then Some('\U{8}') else if e == 'f' then Some('\U{c}') else None
  }

  /** Decodes a `\uXXXX` escape, or a surrogate pair of two, at the front of `t`: the character and the length read. */
  function UnicodeEscape(t: string): (r: Option<(char, nat)>)
    requires |t| >= 2
    ensures r.Some? ==> 2 <= r.value.1 <= |t|
  {
    if |t| < 6 then None
    else
      match Hex4Value(t[2..6])
      case None => None
      case Some(v) =>
        if 0xD800 <= v < 0xDC00 then
          if |t| < 12 || t[6..8] != "\\u" then None
          else
            match Hex4Value(t[8..12])
            case None => None
            case Some(w) =>
              if 0xDC00 <= w < 0xE000 then Some(((0x10000 + (v - 0xD800) * 1024 + (w - 0xDC00)) as char, 12))
              else None
        else if 0xDC00 <= v < 0xE000 then None
        else Some((v as char, 6))
  }

  /** Decodes the escape or plain character at the front of `t`: the character and the length read. */
  function DecodeStep(t: string): (r: Option<(char, nat)>)
    requires |t| > 0
    ensures r.Some? ==> 1 <= r.value.1 <= |t|
  {
    if t[0] != '\\' then (if t[0] == '"' || t[0] < ' ' then None else Some((t[0], 1)))
    else if |t| < 2 then None
    else if t[1] == 'u' then UnicodeEscape(t)
    else match SimpleEscape(t[1]) case Some(x) => Some((x, 2)) case None => None
  }

  /** Decodes the body of a JSON string literal, as `json.loads` does; None for malformed text. */
  function Unescape(t: string): Option<string>
    decreases |t|
  {
    if |t| == 0 then Some("")
    else
      match DecodeStep(t)
      case None => None
      case Some((c, n)) => Prepend(c, Unescape(t[n..]))
  }

  /** What decoding an escaped character yields ahead of the rest. */
  function Prepend(c: char, u: Option<string>): Option<string>
  {
    match u
    case Some(s) => Some([c] + s)
    case None => None
  }

  /** Each written character decodes back to itself, reading exactly what was written. */
  lemma DecodeEscapeChar(c: char, rest: string)
    ensures DecodeStep(EscapeChar(c) + rest) == Some((c, |EscapeChar(c)|))
  {
    if c == '"' || c == '\\' || c == '\n' || c == '\r' || c == '\t' || c == '\U{8}' || c == '\U{c}' {
    } else if Plain(c) {
    } else if (c as int) < 0x10000 {
      DecodeBmp(c, rest);
    } else {
      DecodePair(c, rest);
    }
  }

  lemma DecodeBmp(c: char, rest: string)
    requires !Plain(c) && c != '"' && c != '\\' && c != '\U{8}' && c != '\U{c}' && c != '\n' && c != '\r' && c != '\t'
    requires (c as int) < 0x10000
    ensures DecodeStep(EscapeChar(c) + rest) == Some((c, 6))
    ensures |EscapeChar(c)| == 6
  {
    var t := EscapeChar(c) + rest;
    assert EscapeChar(c) == "\\u" + Hex4(c as int);
    Hex4RoundTrip(c as int);
    assert t[2..6] == Hex4(c as int);
    assert UnicodeEscape(t) == Some((c, 6));
  }

  /** The high surrogate of a character outside the Basic Multilingual Plane. */
  function High(c: char): (hi: nat)
    requires (c as int) >= 0x10000
    ensures 0xD800 <= hi < 0xDC00
  {
    SurrogateSplit(c as int - 0x10000);
    0xD800 + (c as int - 0x10000) / 1024
  }

  /** The low surrogate of a character outside the Basic Multilingual Plane. */
  function Low(c: char): (lo: nat)
    requires (c as int) >= 0x10000
    ensures 0xDC00 <= lo < 0xE000
  {
    SurrogateSplit(c as int - 0x10000);
    0xDC00 + (c as int - 0x10000) % 1024
  }

  /** `\uD83D\uDE00`-style pairs: the high and low halves combine into one character. */
  function SurrogatePair(c: char): (r: string)
    requires (c as int) >= 0x10000
    ensures |r| == 12
  {
    "\\u" + Hex4(High(c)) + "\\u" + Hex4(Low(c))
  }

  lemma DecodePair(c: char, rest: string)
    requires (c as int) >= 0x10000
    ensures DecodeStep(EscapeChar(c) + rest) == Some((c, 12))
    ensures |EscapeChar(c)| == 12
  {
    var hi, lo := High(c), Low(c);
    var a, b := Hex4(hi), Hex4(lo);
    EscapeAstral(c);
    Hex4RoundTrip(hi);
    Hex4RoundTrip(lo);
    PairStep(a, b, rest, hi, lo);
    PairCombines(c, hi, lo);
    var x := 0x10000 + (hi - 0xD800) * 1024 + (lo - 0xDC00);
    assert DecodeStep("\\u" + a + "\\u" + b + rest) == Some((x as char, 12));
  }

  lemma EscapeAstral(c: char)
    requires (c as int) >= 0x10000
    ensures EscapeChar(c) == SurrogatePair(c)
  {
  }

  lemma PairCombines(c: char, hi: int, lo: int)
    requires (c as int) >= 0x10000
    requires hi == High(c) && lo == Low(c)
    ensures (0x10000 + (hi - 0xD800) * 1024 + (lo - 0xDC00)) as char == c
  {
    var n := c as int - 0x10000;
    SurrogateSplit(n);
    assert hi - 0xD800 == n / 1024;
    assert 0x10000 + (hi - 0xD800) * 1024 + (lo - 0xDC00) == c as int;
  }

  lemma PairStep(a: string, b: string, rest: string, hi: nat, lo: nat)
    requires |a| == 4 && |b| == 4
    requires 0xD800 <= hi < 0xDC00 && 0xDC00 <= lo < 0xE000
    requires Hex4Value(a) == Some(hi) && Hex4Value(b) == Some(lo)
    ensures DecodeStep("\\u" + a + "\\u" + b + rest) == Some(((0x10000 + (hi - 0xD800) * 1024 + (lo - 0xDC00)) as char, 12))
  {
    var t := "\\u" + a + "\\u" + b + rest;
    assert t[..2] == "\\u" && t[2..6] == a && t[6..8] == "\\u" && t[8..12] == b;
  }

  lemma SurrogateSplit(n: int)
    requires 0 <= n < 0x100000
    ensures 0xD800 <= 0xD800 + n / 1024 < 0xDC00 && 0xDC00 <= 0xDC00 + n % 1024 < 0xE000
    ensures (n / 1024) * 1024 + n % 1024 == n
  {
  }

  lemma UnescapeChar(c: char, rest: string)
    ensures Unescape(EscapeChar(c) + rest) == Prepend(c, Unescape(rest))
  {
    var t := EscapeChar(c) + rest;
    DecodeEscapeChar(c, rest);
    assert t[|EscapeChar(c)|..] == rest;
  }

  /** Decoding undoes `json.dumps`'s string escaping. */
  lemma {:induction false} EscapeRoundTrip(s: string)
    ensures Unescape(Escape(s)) == Some(s)
    decreases |s|
  {
    if |s| > 0 {
      EscapeRoundTrip(s[1..]);
      UnescapeChar(s[0], Escape(s[1..]));
      assert [s[0]] + s[1..] == s;
    }
  }

  /** Python's `json.dumps(v)` with the default settings. */
  function Dumps(v: Value): string
    decreases v, 1
  {
    match v
    case JNull => "null"
    case JBool(b) => if b then "true" else "false"
    case JInt(i) => IntToString(i)
    case JStr(s) => "\"" + Escape(s) + "\""
    case JArr(items) => "[" + DumpsItems(v, items) + "]"
    case JObj(members) => "{" + DumpsMembers(v, members) + "}"
  }

  function DumpsItems(ghost parent: Value, items: seq<Value>): string
    requires forall k :: 0 <= k < |items| ==> items[k] < parent
    decreases parent, 0, |items|
  {
    if |items| == 0 then ""
    else Dumps(items[0]) + (if |items| == 1 then "" else ", " + DumpsItems(parent, items[1..]))
  }

  function DumpsMembers(ghost parent: Value, members: seq<(string, Value)>): string
    requires forall k :: 0 <= k < |members| ==> members[k].1 < parent
    decreases parent, 0, |members|
  {
    if |members| == 0 then ""
    else
      "\"" + Escape(members[0].0) + "\": " + Dumps(members[0].1)
      + (if |members| == 1 then "" else ", " + DumpsMembers(parent, members[1..]))
  }

  /** `json.dumps` output is printable ASCII, whatever the value holds. */
  lemma {:induction false} DumpsPrintable(v: Value)
    ensures Printable(Dumps(v))
    decreases v, 1
  {
    match v
    case JNull =>
    case JBool(b) =>
    case JInt(i) =>
    case JStr(s) =>
      EscapePrintable(s);
      PrintableConcat("\"", Escape(s));
      PrintableConcat("\"" + Escape(s), "\"");
    case JArr(items) =>
      ItemsPrintable(v, items);
      PrintableConcat("[", DumpsItems(v, items));
      PrintableConcat("[" + DumpsItems(v, items), "]");
    case JObj(members) =>
      MembersPrintable(v, members);
      PrintableConcat("{", DumpsMembers(v, members));
      PrintableConcat("{" + DumpsMembers(v, members), "}");
  }

  lemma {:induction false} ItemsPrintable(parent: Value, items: seq<Value>)
    requires forall k :: 0 <= k < |items| ==> items[k] < parent
    ensures Printable(DumpsItems(parent, items))
    decreases parent, 0, |items|
  {
    if |items| > 0 {
      DumpsPrintable(items[0]);
      if |items| > 1 {
        ItemsPrintable(parent, items[1..]);
        PrintableConcat(", ", DumpsItems(parent, items[1..]));
      }
      PrintableConcat(Dumps(items[0]), if |items| == 1 then "" else ", " + DumpsItems(parent, items[1..]));
    }
  }

  lemma {:induction false} MembersPrintable(parent: Value, members: seq<(string, Value)>)
    requires forall k :: 0 <= k < |members| ==> members[k].1 < parent
    ensures Printable(DumpsMembers(parent, members))
    decreases parent, 0, |members|
  {
    if |members| > 0 {
      var key := "\"" + Escape(members[0].0) + "\": ";
      EscapePrintable(members[0].0);
      PrintableConcat("\"", Escape(members[0].0));
      PrintableConcat("\"" + Escape(members[0].0), "\": ");
      DumpsPrintable(members[0].1);
      PrintableConcat(key, Dumps(members[0].1));
      if |members| > 1 {
        MembersPrintable(parent, members[1..]);
        PrintableConcat(", ", DumpsMembers(parent, members[1..]));
      }
      PrintableConcat(key + Dumps(members[0].1), if |members| == 1 then "" else ", " + DumpsMembers(parent, members[1..]));
    }
  }

  /** A string value is written as a quoted literal that decodes back to the string. */
  lemma DumpsString(s: string)
    ensures var t := Dumps(JStr(s)); |t| >= 2 && t[0] == '"' && t[|t| - 1] == '"' && Unescape(t[1..|t| - 1]) == Some(s)
  {
    var t := Dumps(JStr(s));
    assert t[1..|t| - 1] == Escape(s);
    EscapeRoundTrip(s);
  }
}
