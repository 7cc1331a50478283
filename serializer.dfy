/** Compact JSON text of a value, as `serde_json::to_string` writes it: no
    whitespace, `,` between elements, `:` after a key, strings escaped as in
    section 7 of RFC 8259 with serde_json's choice of escapes. */
module Serializer {
  import opened Results
  import opened Json

  function Serialize(v: Value): (t: string)
    ensures |t| > 0
    decreases v
  {
    match v
    case Null => "null"
    case Bool(b) => if b then "true" else "false"
    case Number(n) => IntToString(n)
    case String(s) => Quote(s)
    case Array(items) => "[" + ItemsText(items) + "]"
    case Object(ms) => "{" + MembersText(ms) + "}"
  }

  function ItemsText(xs: seq<Value>): string
    decreases xs
  {
    if xs == [] then ""
    else if |xs| == 1 then Serialize(xs[0])
    else Serialize(xs[0]) + "," + ItemsText(xs[1..])
  }

  function MembersText(ms: seq<Member>): string
    decreases ms
  {
    if ms == [] then ""
    else
      var m := MemberText(ms[0]);
      if |ms| == 1 then m else m + "," + MembersText(ms[1..])
  }

  function MemberText(m: Member): string
  {
    Quote(m.key) + ":" + Serialize(m.value)
  }

  /** A string literal: the escaped characters between two quotes. */
  function Quote(s: string): string
  {
    "\"" + EscapeChars(s) + "\""
  }

  function EscapeChars(s: string): string
  {
    if s == [] then "" else EscapeChar(s[0]) + EscapeChars(s[1..])
  }

  const HexDigits: string := "0123456789abcdef"

  /** The two-character escapes for quote, backslash and the five named
      control characters; `\u00XX` with lower-case hex for the other control
      characters; every other character as itself. */
  function EscapeChar(c: char): (e: string)
    ensures |e| > 0
  {
    if c == '"' then "\\\""
    else if c == '\\' then "\\\\"
    else if c as int == 0x08 then "\\b"
    else if c as int == 0x0C then "\\f"
    else if c == '\n' then "\\n"
    else if c == '\r' then "\\r"
    else if c == '\t' then "\\t"
    else if c as int < 0x20 then "\\u00" + [HexDigits[c as int / 16], HexDigits[c as int % 16]]
    else [c]
  }

  function IntToString(n: int): (t: string)
    ensures |t| > 0
    ensures forall i :: 0 <= i < |t| ==> IsDigit(t[i]) || (i == 0 && t[i] == '-')
    ensures IsDigit(t[|t| - 1])
  {
    if n < 0 then "-" + NatToString(-n) else NatToString(n)
  }

  function NatToString(n: nat): (t: string)
    ensures |t| > 0
    ensures forall i :: 0 <= i < |t| ==> IsDigit(t[i])
  {
    if n < 10 then [DigitChar(n)] else NatToString(n / 10) + [DigitChar(n % 10)]
  }

  predicate IsDigit(c: char) { '0' <= c <= '9' }

  function DigitChar(d: nat): (c: char)
    requires d < 10
    ensures IsDigit(c)
  {
    "0123456789"[d]
  }

  /** A character that needs no escape. */
  predicate Plain(c: char) { c != '"' && c != '\\' && c as int >= 0x20 }

  /** Text of plain characters is written as it is. */
  lemma {:induction false} EscapeCharsPlain(s: string)
    requires forall i :: 0 <= i < |s| ==> Plain(s[i])
    ensures EscapeChars(s) == s
  {
    if s != [] {
      EscapeCharsPlain(s[1..]);
      assert [s[0]] + s[1..] == s;
    }
  }

  /** Escaping works character by character. */
  lemma {:induction false} EscapeCharsConcat(a: string, b: string)
    ensures EscapeChars(a + b) == EscapeChars(a) + EscapeChars(b)
    decreases |a|
  {
    if a == [] {
      assert a + b == b;
    } else {
      assert (a + b)[1..] == a[1..] + b;
      EscapeCharsConcat(a[1..], b);
    }
  }

  // ---------------------------------------------------------------------------
  // Decoding the escapes: an independent reading of section 7 of RFC 8259,
  // used to show that what EscapeChars writes stands for the original text.
  // ---------------------------------------------------------------------------

  function HexValue(c: char): (r: Option<nat>)
    ensures r.Some? ==> r.value < 16
  {
    if '0' <= c <= '9' then Some(c as int - '0' as int)
    else if 'a' <= c <= 'f' then Some(c as int - 'a' as int + 10)
    else if 'A' <= c <= 'F' then Some(c as int - 'A' as int + 10)
    else None
  }

  /** The code point written by four hex digits. */
  function Hex4(t: string): Option<nat>
    requires |t| == 4
  {
    match (HexValue(t[0]), HexValue(t[1]), HexValue(t[2]), HexValue(t[3]))
    case (Some(a), Some(b), Some(c), Some(d)) => Some(((a * 16 + b) * 16 + c) * 16 + d)
    case _ => None
  }

  /** The characters that the body of a string literal stands for, or None
      when the body is not a valid one. A `\u` escape of a surrogate half is
      refused rather than paired. */
  function Unescaped(t: string): Option<string>
    decreases |t|
  {
    if t == [] then Some([])
    else if t[0] == '\\' then
      if |t| < 2 then None
      else
        var c := t[1];
        var one :=
          if c == '"' then Some('"')
          else if c == '\\' then Some('\\')
          else if c == '/' then Some('/')
          else if c == 'b' then Some(0x08 as char)
          else if c == 'f' then Some(0x0C as char)
          else if c == 'n' then Some('\n')
          else if c == 'r' then Some('\r')
          else if c == 't' then Some('\t')
          else None;
        if one.Some? then
          match Unescaped(t[2..])
          case Some(u) => Some([one.value] + u)
          case None => None
        else if c == 'u' && |t| >= 6 then
          match Hex4(t[2..6])
          case Some(code) =>
            if code < 0xD800 || 0xE000 <= code then
              match Unescaped(t[6..])
              case Some(u) => Some([code as char] + u)
              case None => None
            else None
          case None => None
        else None
    else if t[0] == '"' || t[0] as int < 0x20 then None
    else
      match Unescaped(t[1..])
      case Some(u) => Some([t[0]] + u)
      case None => None
  }

  lemma EscapeCharDecodes(c: char, rest: string)
    ensures Unescaped(EscapeChar(c) + rest) ==
      match Unescaped(rest)
      case Some(u) => Some([c] + u)
      case None => None
  {
    var e := EscapeChar(c);
    if c as int < 0x20 && !(c as int in {0x08, 0x09, 0x0A, 0x0C, 0x0D}) {
      HexEscapeDecodes(c, rest);
    } else if |e| == 2 {
      assert (e + rest)[2..] == rest;
    } else {
      assert (e + rest)[1..] == rest;
    }
  }

  /** A control character without a short escape is written `\u00XX` and
      read back from its four hex digits. */
  lemma HexEscapeDecodes(c: char, rest: string)
    requires c as int < 0x20 && !(c as int in {0x08, 0x09, 0x0A, 0x0C, 0x0D})
    ensures Unescaped(EscapeChar(c) + rest) ==
      match Unescaped(rest)
      case Some(u) => Some([c] + u)
      case None => None
  {
    var hi, lo := c as int / 16, c as int % 16;
    var t := EscapeChar(c) + rest;
    assert EscapeChar(c) == "\\u00" + [HexDigits[hi], HexDigits[lo]];
    assert t[2..6] == ['0', '0', HexDigits[hi], HexDigits[lo]];
    HexPairValue(hi, lo);
    assert t[6..] == rest;
    UnicodeEscapeDecodes(t, c as int);
  }

  /** Two hex digits after `00` give back the number they were written from. */
  lemma HexPairValue(hi: nat, lo: nat)
    requires hi < 16 && lo < 16
    ensures Hex4(['0', '0', HexDigits[hi], HexDigits[lo]]) == Some(hi * 16 + lo)
  {
    HexDigitValue(hi);
    HexDigitValue(lo);
  }

  lemma HexDigitValue(d: nat)
    requires d < 16
    ensures HexValue(HexDigits[d]) == Some(d)
  {
    if d < 10 {
      assert HexDigits[d] as int == '0' as int + d;
    } else {
      assert HexDigits[d] as int == 'a' as int + d - 10;
    }
  }

  /** How a `\u` escape outside the surrogate range is read. */
  lemma UnicodeEscapeDecodes(t: string, code: nat)
    requires |t| >= 6 && t[0] == '\\' && t[1] == 'u' && Hex4(t[2..6]) == Some(code)
    requires code < 0xD800
    ensures Unescaped(t) ==
      match Unescaped(t[6..])
      case Some(u) => Some([code as char] + u)
      case None => None
  {
  }

  /** Decoding undoes the escaping: a serialised string stands for the
      original characters. */
  lemma {:induction false} EscapeRoundTrip(s: string)
    ensures Unescaped(EscapeChars(s)) == Some(s)
  {
    if s != [] {
      EscapeRoundTrip(s[1..]);
      EscapeCharDecodes(s[0], EscapeChars(s[1..]));
      assert [s[0]] + s[1..] == s;
    }
  }

  // ---------------------------------------------------------------------------
  // No whitespace outside string literals.
  // ---------------------------------------------------------------------------

  predicate IsWhitespace(c: char) { c == ' ' || c == '\t' || c == '\n' || c == '\r' }

  /** Scanning `t` from outside (or inside) a string literal meets no JSON
      whitespace outside literals, and ends outside every literal. A
      backslash inside a literal takes the next character with it. */
  predicate CompactFrom(t: string, inString: bool)
    decreases |t|
  {
    if t == [] then !inString
    else if inString then
      if t[0] == '\\' then |t| >= 2 && CompactFrom(t[2..], true)
      else CompactFrom(t[1..], t[0] != '"')
    else !IsWhitespace(t[0]) && CompactFrom(t[1..], t[0] == '"')
  }

  predicate Compact(t: string) { CompactFrom(t, false) }

  lemma {:induction false} CompactConcat(a: string, inString: bool, b: string)
    requires CompactFrom(a, inString) && Compact(b)
    ensures CompactFrom(a + b, inString)
    decreases |a|
  {
    if a == [] {
      assert a + b == b;
    } else if inString && a[0] == '\\' {
      assert (a + b)[2..] == a[2..] + b;
      CompactConcat(a[2..], true, b);
    } else {
      assert (a + b)[1..] == a[1..] + b;
      CompactConcat(a[1..], if inString then a[0] != '"' else a[0] == '"', b);
    }
  }

  /** Text with no whitespace and no quote is compact. */
  lemma {:induction false} BareCompact(t: string)
    requires forall i :: 0 <= i < |t| ==> !IsWhitespace(t[i]) && t[i] != '"'
    ensures Compact(t)
  {
    if t != [] {
      BareCompact(t[1..]);
    }
  }

  /** Escaped characters never leave the literal they are in. */
  lemma {:induction false} EscapedStaysInString(s: string, tail: string)
    ensures CompactFrom(EscapeChars(s) + tail, true) == CompactFrom(tail, true)
  {
    if s != [] {
      var rest := EscapeChars(s[1..]) + tail;
      EscapeCharsThenTail(s, tail);
      EscapedStaysInString(s[1..], tail);
      StaysAfterChar(EscapeChars(s) + tail, s[0], rest, tail);
    } else {
      assert EscapeChars(s) + tail == tail;
    }
  }

  lemma EscapeCharsThenTail(s: string, tail: string)
    requires s != []
    ensures EscapeChars(s) + tail == EscapeChar(s[0]) + (EscapeChars(s[1..]) + tail)
  {
    EscapeCharsUnfold(s);
    Associative(EscapeChar(s[0]), EscapeChars(s[1..]), tail);
  }

  lemma EscapeCharsUnfold(s: string)
    requires s != []
    ensures EscapeChars(s) == EscapeChar(s[0]) + EscapeChars(s[1..])
  {
  }

  lemma StaysAfterChar(t: string, c: char, rest: string, tail: string)
    requires t == EscapeChar(c) + rest && CompactFrom(rest, true) == CompactFrom(tail, true)
    ensures CompactFrom(t, true) == CompactFrom(tail, true)
  {
    EscapeCharStaysInString(c, rest);
  }

  lemma EscapeCharStaysInString(c: char, rest: string)
    ensures CompactFrom(EscapeChar(c) + rest, true) == CompactFrom(rest, true)
  {
    var e := EscapeChar(c);
    var t := e + rest;
    if |e| == 1 {
      assert t[0] == c && c != '"' && c != '\\';
      assert t[1..] == rest;
    } else if |e| == 2 {
      assert t[0] == '\\';
      assert t[2..] == rest;
    } else {
      assert |e| == 6;
      var u := t[2..];
      assert t[0] == '\\';
      assert u[0] == '0' && u[1] == '0';
      assert u[2] != '"' && u[2] != '\\' && u[3] != '"' && u[3] != '\\';
      var u1, u2, u3 := u[1..], u[2..], u[3..];
      assert u1[0] == u[1] && u2[0] == u[2] && u3[0] == u[3];
      assert u1[1..] == u2 && u2[1..] == u3 && u3[1..] == rest;
      assert CompactFrom(u3, true) == CompactFrom(rest, true);
      assert CompactFrom(u2, true) == CompactFrom(u3, true);
      assert CompactFrom(u1, true) == CompactFrom(u2, true);
      assert CompactFrom(u, true) == CompactFrom(u1, true);
    }
  }

  lemma QuoteCompact(s: string)
    ensures Compact(Quote(s))
  {
    EscapedStaysInString(s, "\"");
    assert Quote(s)[1..] == EscapeChars(s) + "\"";
  }

  /** The serialiser writes no whitespace outside string literals. */
  lemma {:induction false} SerializeCompact(v: Value)
    ensures Compact(Serialize(v))
    decreases v
  {
    match v
    case Null => BareCompact("null");
    case Bool(b) => BareCompact(Serialize(v));
    case Number(n) => BareCompact(IntToString(n));
    case String(s) => QuoteCompact(s);
    case Array(items) =>
      ItemsCompact(items);
      CompactJoin("[", ItemsText(items), "]");
    case Object(ms) =>
      MembersCompact(ms);
      CompactJoin("{", MembersText(ms), "}");
  }

  lemma {:induction false} ItemsCompact(xs: seq<Value>)
    ensures Compact(ItemsText(xs))
    decreases xs
  {
    if |xs| == 1 {
      SerializeCompact(xs[0]);
    } else if |xs| > 1 {
      SerializeCompact(xs[0]);
      ItemsCompact(xs[1..]);
      CompactJoin(Serialize(xs[0]), ",", ItemsText(xs[1..]));
    }
  }

  lemma {:induction false} MembersCompact(ms: seq<Member>)
    ensures Compact(MembersText(ms))
    decreases ms
  {
    if ms != [] {
      var m := ms[0];
      assert Compact(MemberText(m)) by {
        SerializeCompact(m.value);
        QuoteCompact(m.key);
        CompactJoin(Quote(m.key), ":", Serialize(m.value));
      }
      if |ms| > 1 {
        MembersCompact(ms[1..]);
        CompactJoin(MemberText(m), ",", MembersText(ms[1..]));
      }
    }
  }

  /** Three compact texts in a row make a compact text. */
  lemma CompactJoin(a: string, b: string, c: string)
    requires Compact(a) && Compact(b) && Compact(c)
    ensures Compact(a + b + c)
  {
    CompactConcat(b, false, c);
    CompactConcat(a, false, b + c);
    assert a + b + c == a + (b + c);
  }
}
