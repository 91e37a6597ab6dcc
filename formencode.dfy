/**
 * Form encoding as Python's `urllib.parse` does it: UTF-8 encoding,
 * `quote_plus` (letters, digits and `_.-~` kept, space written as `+`,
 * every other byte as `%XX` in upper case) and `urlencode` of a sequence
 * of key/value pairs. The byte-level decoder beside them undoes the encoding.
 */
module FormEncoding {
  import opened Wrappers
  import Strings

  /** The UTF-8 encoding of one character. */
  function Utf8Char(c: char): (r: seq<byte>)
    ensures 1 <= |r| <= 4
  {
    var n := c as int;
    if n < 0x80 then [n as byte]
    else if n < 0x800 then [(0xC0 + n / 64) as byte, (0x80 + n % 64) as byte]
    else if n < 0x10000 then [(0xE0 + n / 4096) as byte, (0x80 + n / 64 % 64) as byte, (0x80 + n % 64) as byte]
    else [(0xF0 + n / 262144) as byte, (0x80 + n / 4096 % 64) as byte, (0x80 + n / 64 % 64) as byte, (0x80 + n % 64) as byte]
  }

  /** `s.encode('utf-8')`. */
  function Utf8(s: string): seq<byte>
  {
    if |s| == 0 then [] else Utf8Char(s[0]) + Utf8(s[1..])
  }

  /** ASCII text encodes to its own code points, one byte per character. */
  lemma {:induction false} Utf8Ascii(s: string)
    requires forall k :: 0 <= k < |s| ==> (s[k] as int) < 0x80
    ensures |Utf8(s)| == |s| && forall k :: 0 <= k < |s| ==> Utf8(s)[k] as int == s[k] as int
    decreases |s|
  {
    if |s| > 0 {
      Utf8Ascii(s[1..]);
    }
  }

  /** The bytes `quote` never escapes: ASCII letters, digits and `_.-~`. */
  predicate AlwaysSafe(b: byte)
  {
    ('A' as byte <= b <= 'Z' as byte) || ('a' as byte <= b <= 'z' as byte) || ('0' as byte <= b <= '9' as byte)
    || b == '_' as byte || b == '.' as byte || b == '-' as byte || b == '~' as byte
  }

  /** The upper-case hexadecimal digit of `d`. */
  function UpperHex(d: nat): (c: char)
    requires d < 16
    ensures HexDigit(c) == Some(d)
  {
    if d < 10 then ('0' as int + d) as char else ('A' as int + d - 10) as char
  }

  /** How `quote_plus` writes one byte. */
  function QuoteByte(b: byte): (r: string)
    ensures |r| == 1 || |r| == 3
  {
    if b == 0x20 then "+"
    else if AlwaysSafe(b) then [b as int as char]
    else ['%', UpperHex(b as int / 16), UpperHex(b as int % 16)]
  }

  function QuoteBytes(bs: seq<byte>): string
  {
    if |bs| == 0 then "" else QuoteByte(bs[0]) + QuoteBytes(bs[1..])
  }

  /** Python's `quote_plus(s)`. */
  function QuotePlus(s: string): string
  {
    QuoteBytes(Utf8(s))
  }

  /** The value of one upper- or lower-case hexadecimal digit. */
  function HexDigit(c: char): Option<nat>
  {
    if '0' <= c <= '9' then Some(c as int - '0' as int)
    else if 'A' <= c <= 'F' then Some(c as int - 'A' as int + 10)
    else if 'a' <= c <= 'f' then Some(c as int - 'a' as int + 10)
    else None
  }

  /** Decodes the byte at the front of form-encoded text: the byte and the number of characters read. */
  function UnquoteStep(t: string): (r: Option<(byte, nat)>)
    requires |t| > 0
    ensures r.Some? ==> 1 <= r.value.1 <= |t|
  {
    if t[0] == '+' then Some((0x20, 1))
    else if t[0] == '%' then
      if |t| < 3 then None
      else
        match (HexDigit(t[1]), HexDigit(t[2]))
        case (Some(h), Some(l)) => if h < 16 && l < 16 then Some(((h * 16 + l) as byte, 3)) else None
        case _ => None
    else if (t[0] as int) < 0x80 then Some((t[0] as int as byte, 1))
    else None
  }

  /** `unquote_plus` down to the bytes, before they are decoded as UTF-8; None for a malformed escape. */
  function UnquotePlusBytes(t: string): Option<seq<byte>>
    decreases |t|
  {
    if |t| == 0 then Some([])
    else
      match UnquoteStep(t)
      case None => None
      case Some((b, n)) =>
        match UnquotePlusBytes(t[n..])
        case None => None
        case Some(rest) => Some([b] + rest)
  }

  lemma UnquoteQuoteByte(b: byte, rest: string)
    ensures UnquoteStep(QuoteByte(b) + rest) == Some((b, |QuoteByte(b)|))
  {
    var t := QuoteByte(b) + rest;
    if b != 0x20 && !AlwaysSafe(b) {
      var h, l := b as int / 16, b as int % 16;
      assert t[1] == UpperHex(h) && t[2] == UpperHex(l);
    }
  }

  lemma {:induction false} QuoteBytesRoundTrip(bs: seq<byte>)
    ensures UnquotePlusBytes(QuoteBytes(bs)) == Some(bs)
    decreases |bs|
  {
    if |bs| > 0 {
      var t := QuoteBytes(bs);
      QuoteBytesRoundTrip(bs[1..]);
      UnquoteQuoteByte(bs[0], QuoteBytes(bs[1..]));
      assert t[|QuoteByte(bs[0])|..] == QuoteBytes(bs[1..]);
      assert [bs[0]] + bs[1..] == bs;
    }
  }

  /** Unquoting `quote_plus(s)` gives back the UTF-8 bytes of `s`. */
  lemma QuotePlusRoundTrip(s: string)
    ensures UnquotePlusBytes(QuotePlus(s)) == Some(Utf8(s))
  {
    QuoteBytesRoundTrip(Utf8(s));
  }

  /** The characters `quote_plus` may write. */
  predicate FormChar(c: char)
  {
    ('A' <= c <= 'Z') || ('a' <= c <= 'z') || ('0' <= c <= '9') || c == '_' || c == '.' || c == '-' || c == '~'
    || c == '+' || c == '%'
  }

  predicate FormText(t: string)
  {
    forall k :: 0 <= k < |t| ==> FormChar(t[k])
  }

  lemma {:induction false} QuoteBytesFormText(bs: seq<byte>)
    ensures FormText(QuoteBytes(bs))
    decreases |bs|
  {
    if |bs| > 0 {
      QuoteBytesFormText(bs[1..]);
      QuoteByteFormText(bs[0]);
      FormTextConcat(QuoteByte(bs[0]), QuoteBytes(bs[1..]));
    }
  }

  lemma QuoteByteFormText(b: byte)
    ensures FormText(QuoteByte(b))
  {
    if b != 0x20 && !AlwaysSafe(b) {
      var q := QuoteByte(b);
      assert q[0] == '%' && q[1] == UpperHex(b as int / 16) && q[2] == UpperHex(b as int % 16);
    }
  }

  lemma FormTextConcat(a: string, b: string)
    requires FormText(a) && FormText(b)
    ensures FormText(a + b)
  {
    forall k | 0 <= k < |a + b| ensures FormChar((a + b)[k]) {
      if k >= |a| {
        assert (a + b)[k] == b[k - |a|];
      }
    }
  }

  /** `quote_plus` output is made only of letters, digits, `_.-~`, `+` and `%`: never `&` or `=`. */
  lemma QuotePlusFormText(s: string)
    ensures FormText(QuotePlus(s))
    ensures '&' !in QuotePlus(s) && '=' !in QuotePlus(s)
  {
    QuoteBytesFormText(Utf8(s));
  }

  /** One `key=value` field of the encoded form. */
  function Field(p: (string, string)): string
  {
    QuotePlus(p.0) + "=" + QuotePlus(p.1)
  }

  /** Python's `urlencode(pairs)` for string keys and values, in the given order. */
  function Urlencode(pairs: seq<(string, string)>): string
  {
    Strings.Join(seq(|pairs|, k requires 0 <= k < |pairs| => Field(pairs[k])), '&')
  }

  /** One pair is encoded as its one field. */
  lemma UrlencodeOne(p: (string, string))
    ensures Urlencode([p]) == Field(p)
  {
    var pairs := [p];
    var fields := seq(|pairs|, k requires 0 <= k < |pairs| => Field(pairs[k]));
    assert fields == [Field(p)];
  }

  /** Reads an encoded form back into the UTF-8 bytes of each key and value. */
  function FormDecode(t: string): Option<seq<(seq<byte>, seq<byte>)>>
  {
    DecodeFields(Strings.Split(t, '&'))
  }

  function DecodeFields(fields: seq<string>): Option<seq<(seq<byte>, seq<byte>)>>
  {
    if |fields| == 0 then Some([])
    else
      var kv := Strings.Split(fields[0], '=');
      if |kv| != 2 then None
      else
        match (UnquotePlusBytes(kv[0]), UnquotePlusBytes(kv[1]), DecodeFields(fields[1..]))
        case (Some(k), Some(v), Some(rest)) => Some([(k, v)] + rest)
        case _ => None
  }

  /** The UTF-8 bytes of every key and value, in the order given. */
  function EncodedPairs(pairs: seq<(string, string)>): seq<(seq<byte>, seq<byte>)>
  {
    seq(|pairs|, k requires 0 <= k < |pairs| => (Utf8(pairs[k].0), Utf8(pairs[k].1)))
  }

  lemma FieldDecodes(p: (string, string))
    ensures Strings.Split(Field(p), '=') == [QuotePlus(p.0), QuotePlus(p.1)]
  {
    QuotePlusFormText(p.0);
    QuotePlusFormText(p.1);
    var parts := [QuotePlus(p.0), QuotePlus(p.1)];
    assert Strings.Join(parts, '=') == Field(p);
    Strings.JoinSplit(parts, '=');
  }

  lemma {:induction false} DecodeFieldsOf(pairs: seq<(string, string)>)
    ensures DecodeFields(seq(|pairs|, k requires 0 <= k < |pairs| => Field(pairs[k]))) == Some(EncodedPairs(pairs))
    decreases |pairs|
  {
    var fields := seq(|pairs|, k requires 0 <= k < |pairs| => Field(pairs[k]));
    if |pairs| > 0 {
      var tail := seq(|pairs[1..]|, k requires 0 <= k < |pairs[1..]| => Field(pairs[1..][k]));
      DecodeFieldsOf(pairs[1..]);
      assert fields[1..] == tail;
      FieldDecodes(pairs[0]);
      QuotePlusRoundTrip(pairs[0].0);
      QuotePlusRoundTrip(pairs[0].1);
      DecodeFieldsStep(fields, QuotePlus(pairs[0].0), QuotePlus(pairs[0].1), Utf8(pairs[0].0), Utf8(pairs[0].1), EncodedPairs(pairs[1..]));
      EncodedPairsCons(pairs);
    } else {
      assert fields == [] && EncodedPairs(pairs) == [];
    }
  }

  lemma DecodeFieldsStep(fields: seq<string>, a: string, b: string, k: seq<byte>, v: seq<byte>, rest: seq<(seq<byte>, seq<byte>)>)
    requires |fields| > 0 && Strings.Split(fields[0], '=') == [a, b]
    requires UnquotePlusBytes(a) == Some(k) && UnquotePlusBytes(b) == Some(v) && DecodeFields(fields[1..]) == Some(rest)
    ensures DecodeFields(fields) == Some([(k, v)] + rest)
  {
  }

  lemma EncodedPairsCons(pairs: seq<(string, string)>)
    requires |pairs| > 0
    ensures EncodedPairs(pairs) == [(Utf8(pairs[0].0), Utf8(pairs[0].1))] + EncodedPairs(pairs[1..])
  {
    var e, t := EncodedPairs(pairs), EncodedPairs(pairs[1..]);
    forall i | 0 <= i < |e| ensures e[i] == ([(Utf8(pairs[0].0), Utf8(pairs[0].1))] + t)[i] {
      if i > 0 {
        assert pairs[1..][i - 1] == pairs[i];
      }
    }
  }

  /** Decoding `urlencode(pairs)` recovers every key and value, in order. */
  lemma UrlencodeRoundTrip(pairs: seq<(string, string)>)
    requires |pairs| > 0
    ensures FormDecode(Urlencode(pairs)) == Some(EncodedPairs(pairs))
  {
    var fields := seq(|pairs|, k requires 0 <= k < |pairs| => Field(pairs[k]));
    forall k | 0 <= k < |fields|
      ensures '&' !in fields[k]
    {
      QuotePlusFormText(pairs[k].0);
      QuotePlusFormText(pairs[k].1);
      var a, b := QuotePlus(pairs[k].0), QuotePlus(pairs[k].1);
      assert fields[k] == a + "=" + b;
      forall j | 0 <= j < |fields[k]| ensures fields[k][j] != '&' {
        if j < |a| {
          assert fields[k][j] == a[j];
        } else if j > |a| {
          assert fields[k][j] == b[j - |a| - 1];
        }
      }
    }
    Strings.JoinSplit(fields, '&');
    DecodeFieldsOf(pairs);
  }
}
