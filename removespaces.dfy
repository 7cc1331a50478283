/** Removing insignificant whitespace (`remove_spaces_value` and
    `remove_spaces_str`): the normaliser and the compact serialiser, one
    after the other. */
module RemoveSpaces {
  import opened Results
  import opened Json
  import opened Serializer
  import opened TextRewrite
  import opened Normalizer
  import opened PathEncoder

  /** `remove_spaces_value`: the compact text of the value, normalised again.
      Stringifying without paths cannot fail, so this is the normaliser
      applied to the compact text. */
  function RemoveSpacesValue(parser: JsonParser, v: Value): (r: Result<Value>)
    requires Shrinks(parser)
    ensures r == Parse(parser, Serialize(v))
  {
    StringifyNoPaths(v);
    match StringifyAsWritten(v, None)
    case Ok(t) => Parse(parser, t)
    case Err(e) => Err(e)
    case Panic => Panic
  }

  /** `remove_spaces_str`: the normalised input, written compactly. A failure
      of the normaliser is passed on as it is. */
  function RemoveSpacesStr(parser: JsonParser, s: string): (r: Result<string>)
    requires Shrinks(parser)
    ensures Parse(parser, s).Ok? ==> r == Ok(Serialize(Parse(parser, s).value))
    ensures Parse(parser, s).Err? ==> r == Err(Parse(parser, s).error)
    ensures !r.Panic?
  {
    match Parse(parser, s)
    case Ok(v) =>
      StringifyNoPaths(v);
      StringifyAsWritten(v, None)
    case Err(e) => Err(e)
    case Panic => Panic
  }

  /** The output has no whitespace outside string literals. */
  lemma OutputCompact(parser: JsonParser, s: string)
    requires Shrinks(parser)
    ensures RemoveSpacesStr(parser, s).Ok? ==> Compact(RemoveSpacesStr(parser, s).value)
  {
    if Parse(parser, s).Ok? {
      SerializeCompact(Parse(parser, s).value);
    }
  }

  /** Only a string's text begins or ends with a quote. */
  lemma {:induction false} SerializeEnds(v: Value)
    requires !v.String?
    ensures Serialize(v)[0] != '"' && Serialize(v)[|Serialize(v)| - 1] != '"'
  {
    match v
    case Number(n) =>
      var t := IntToString(n);
      assert IsDigit(t[0]) || t[0] == '-';
    case _ =>
  }

  // ---------------------------------------------------------------------------
  // Compact text on which the rewrites of `parse` do nothing.
  // ---------------------------------------------------------------------------

  /** No text of `v`, neither an object key nor a string leaf, holds a quote. */
  predicate TextsQuoteFree(v: Value)
    decreases v
  {
    match v
    case String(t) => '"' !in t
    case Array(xs) => forall i :: 0 <= i < |xs| ==> TextsQuoteFree(xs[i])
    case Object(ms) => forall i :: 0 <= i < |ms| ==> '"' !in ms[i].key && TextsQuoteFree(ms[i].value)
    case _ => true
  }

  /** A prefix without a backslash is copied by the unescaping. */
  lemma UnescapePlainPrefix(p: string, q: string)
    requires '\\' !in p
    ensures Unescape(p + q) == p + Unescape(q)
  {
    if p == [] {
      assert p + q == q;
    } else {
      UnescapeConcat(p, q);
      UnescapeWithoutBackslashes(p);
    }
  }

  lemma Regroup(a: string, b: string, c: string, d: string)
    ensures ((a + b) + c) + d == a + (b + (c + d))
  {
  }

  lemma RegroupEscape(r: string, b: string, x: string, y: string, t: string)
    ensures r + ((b + x + y) + t) == ((r + b) + x) + (y + t)
  {
  }

  lemma Regroup3(a: string, b: string, c: string, d: string)
    ensures a + ((b + c) + d) == (a + b) + (c + d)
  {
  }

  lemma BackslashesPair(n: nat)
    ensures Backslashes(n) + "\\\\" == Backslashes(n + 2)
  {
  }

  lemma BackslashesSnoc(n: nat)
    ensures Backslashes(n) + "\\" == Backslashes(n + 1)
  {
  }

  /** The escape of a character other than a quote or a backslash is the
      character itself, or a backslash followed by a character that is
      neither and then by no backslash at all. */
  lemma EscapeOfOther(c: char)
    requires c != '"' && c != '\\'
    ensures var e := EscapeChar(c);
      e == [c] || (|e| >= 2 && e == "\\" + [e[1]] + e[2..] && e[1] != '"' && e[1] != '\\' && '\\' !in e[2..])
  {
    if c as int < 0x20 && c as int != 0x08 && c as int != 0x0C && c != '\n' && c != '\r' && c != '\t' {
      var h, l := HexDigits[c as int / 16], HexDigits[c as int % 16];
      assert h != '\\' && l != '\\';
      assert EscapeChar(c)[2..] == ['0', '0', h, l];
    }
  }

  /** After an even run of backslashes, the escaped text of a string without
      a quote and the closing quote are copied by the unescaping: every
      backslash run of such an escaped text is even or followed by a letter. */
  lemma {:induction false} UnescapeEscaped(j: nat, s: string, q: string)
    requires '"' !in s
    ensures Unescape(Backslashes(2 * j) + (EscapeChars(s) + ("\"" + q)))
         == Backslashes(2 * j) + (EscapeChars(s) + ("\"" + Unescape(q)))
    decreases |s|, 0
  {
    var t, u := "\"" + q, "\"" + Unescape(q);
    if s == [] {
      assert EscapeChars(s) + t == t && EscapeChars(s) + u == u;
      EvenRunBeforeQuote(j, q);
      Associative(Backslashes(2 * j), "\"", q);
      Associative(Backslashes(2 * j), "\"", Unescape(q));
    } else {
      var c, rest := s[0], s[1..];
      assert '"' !in rest by {
        forall i | 0 <= i < |rest| ensures rest[i] != '"' {
          assert rest[i] == s[i + 1];
        }
      }
      assert EscapeChars(s) == EscapeChar(c) + EscapeChars(rest);
      if c == '\\' {
        UnescapeEscaped(j + 1, rest, q);
        EscapedPairStep(j, EscapeChars(rest), t, u);
      } else {
        UnescapeEscapedAlone(rest, q);
        EscapedOtherStep(j, c, EscapeChars(rest), t, u);
      }
    }
  }

  /** The escape `\\` of a backslash lengthens the even run before it. */
  lemma EscapedPairStep(j: nat, er: string, t: string, u: string)
    requires Unescape(Backslashes(2 * (j + 1)) + (er + t)) == Backslashes(2 * (j + 1)) + (er + u)
    ensures Unescape(Backslashes(2 * j) + ((EscapeChar('\\') + er) + t))
         == Backslashes(2 * j) + ((EscapeChar('\\') + er) + u)
  {
    var run, e := Backslashes(2 * j), EscapeChar('\\');
    BackslashesPair(2 * j);
    Regroup3(run, e, er, t);
    Regroup3(run, e, er, u);
  }

  /** The escape of any other character ends the run before it with a
      character that is not a quote. */
  lemma EscapedOtherStep(j: nat, c: char, er: string, t: string, u: string)
    requires c != '"' && c != '\\'
    requires Unescape(er + t) == er + u
    ensures Unescape(Backslashes(2 * j) + ((EscapeChar(c) + er) + t))
         == Backslashes(2 * j) + ((EscapeChar(c) + er) + u)
  {
    var run, e := Backslashes(2 * j), EscapeChar(c);
    EscapeOfOther(c);
    if e == [c] {
      RunBeforeOther(2 * j, c, er + t);
      Regroup3(run, e, er, t);
      Regroup3(run, e, er, u);
    } else {
      var x, y := [e[1]], e[2..];
      UnescapePlainPrefix(y, er + t);
      RunBeforeOther(2 * j + 1, e[1], y + (er + t));
      BackslashesSnoc(2 * j);
      RegroupEscape(run, "\\", x, y, er + t);
      RegroupEscape(run, "\\", x, y, er + u);
      Associative(e, er, t);
      Associative(e, er, u);
    }
  }

  lemma {:induction false} UnescapeEscapedAlone(s: string, q: string)
    requires '"' !in s
    ensures Unescape(EscapeChars(s) + ("\"" + q)) == EscapeChars(s) + ("\"" + Unescape(q))
    decreases |s|, 1
  {
    var x, y := EscapeChars(s) + ("\"" + q), EscapeChars(s) + ("\"" + Unescape(q));
    UnescapeEscaped(0, s, q);
    EmptyRun(x);
    EmptyRun(y);
  }

  lemma EmptyRun(x: string)
    ensures Backslashes(2 * 0) + x == x
  {
    assert Backslashes(0) == [];
  }

  /** The string literal of a text without a quote is copied by the
      unescaping. */
  lemma UnescapeQuote(s: string, q: string)
    requires '"' !in s
    ensures Unescape(Quote(s) + q) == Quote(s) + Unescape(q)
  {
    var es := EscapeChars(s);
    UnescapeEscapedAlone(s, q);
    UnescapeOther('"', es + ("\"" + q));
    Regroup("\"", es, "\"", q);
    Regroup("\"", es, "\"", Unescape(q));
  }

  /** The compact text of a value whose keys and strings hold no quote is
      copied by the unescaping, whatever follows it. */
  lemma {:induction false} UnescapeSerialized(v: Value, q: string)
    requires TextsQuoteFree(v)
    ensures Unescape(Serialize(v) + q) == Serialize(v) + Unescape(q)
    decreases v
  {
    match v
    case Null => UnescapePlainPrefix("null", q);
    case Bool(b) => UnescapePlainPrefix(if b then "true" else "false", q);
    case Number(n) =>
      var t := IntToString(n);
      assert '\\' !in t by {
        forall i | 0 <= i < |t| ensures t[i] != '\\' {
          assert IsDigit(t[i]) || t[i] == '-';
        }
      }
      UnescapePlainPrefix(t, q);
    case String(s) => UnescapeQuote(s, q);
    case Array(xs) =>
      var it := ItemsText(xs);
      UnescapePlainPrefix("]", q);
      UnescapeItems(xs, "]" + q);
      UnescapePlainPrefix("[", it + ("]" + q));
      Regroup("[", it, "]", q);
      Regroup("[", it, "]", Unescape(q));
    case Object(ms) =>
      var mt := MembersText(ms);
      UnescapePlainPrefix("}", q);
      UnescapeMembers(ms, "}" + q);
      UnescapePlainPrefix("{", mt + ("}" + q));
      Regroup("{", mt, "}", q);
      Regroup("{", mt, "}", Unescape(q));
  }

  lemma {:induction false} UnescapeItems(xs: seq<Value>, q: string)
    requires forall i :: 0 <= i < |xs| ==> TextsQuoteFree(xs[i])
    ensures Unescape(ItemsText(xs) + q) == ItemsText(xs) + Unescape(q)
    decreases xs
  {
    if xs == [] {
      assert ItemsText(xs) + q == q && ItemsText(xs) + Unescape(q) == Unescape(q);
    } else if |xs| == 1 {
      UnescapeSerialized(xs[0], q);
    } else if |xs| > 1 {
      var h, r := Serialize(xs[0]), ItemsText(xs[1..]);
      UnescapeItems(xs[1..], q);
      UnescapePlainPrefix(",", r + q);
      UnescapeSerialized(xs[0], "," + (r + q));
      Regroup(h, ",", r, q);
      Regroup(h, ",", r, Unescape(q));
    }
  }

  lemma {:induction false} UnescapeMembers(ms: seq<Member>, q: string)
    requires forall i :: 0 <= i < |ms| ==> '"' !in ms[i].key && TextsQuoteFree(ms[i].value)
    ensures Unescape(MembersText(ms) + q) == MembersText(ms) + Unescape(q)
    decreases ms
  {
    if ms != [] {
      var m := ms[0];
      var k, w, mt := Quote(m.key), Serialize(m.value), MemberText(ms[0]);
      var x, ux;
      if |ms| == 1 {
        x, ux := q, Unescape(q);
      } else {
        var r := MembersText(ms[1..]);
        x, ux := "," + (r + q), "," + (r + Unescape(q));
        UnescapeMembers(ms[1..], q);
        UnescapePlainPrefix(",", r + q);
        Regroup(mt, ",", r, q);
        Regroup(mt, ",", r, Unescape(q));
      }
      assert Unescape(x) == ux;
      assert MembersText(ms) + q == mt + x;
      assert MembersText(ms) + Unescape(q) == mt + ux;
      UnescapeSerialized(m.value, x);
      UnescapePlainPrefix(":", w + x);
      UnescapeQuote(m.key, ":" + (w + x));
      Regroup(k, ":", w, x);
      Regroup(k, ":", w, ux);
    } else {
      assert MembersText(ms) + q == q && MembersText(ms) + Unescape(q) == Unescape(q);
    }
  }

  /** The rewrites leave the compact text of a value that is not a string,
      and whose keys and strings hold no quote, as it is. Backslashes from
      escapes such as `\\` or `\n` in the text are kept. */
  lemma RewriteOfSerialized(v: Value)
    requires !v.String? && TextsQuoteFree(v)
    ensures Rewrite(Serialize(v)) == Serialize(v)
  {
    var t := Serialize(v);
    SerializeEnds(v);
    assert StripQuotes(t) == t;
    UnescapeSerialized(v, []);
    assert t + [] == t;
  }

  /** Unescaping the escaped text of a string of plain characters and quotes
      gives the string back: each `\"` turns into the quote it stands for. */
  lemma {:induction false} UnescapeQuotedEscapes(t: string)
    requires forall i :: 0 <= i < |t| ==> Plain(t[i]) || t[i] == '"'
    ensures Unescape(EscapeChars(t)) == t
    decreases |t|
  {
    if t != [] {
      assert forall i :: 0 <= i < |t| - 1 ==> t[1..][i] == t[i + 1];
      UnescapeQuotedEscapes(t[1..]);
      assert EscapeChars(t) == EscapeChar(t[0]) + EscapeChars(t[1..]);
      QuotedEscapeStep(t[0], EscapeChars(t[1..]), t[1..]);
      assert t == [t[0]] + t[1..];
    }
  }

  lemma QuotedEscapeStep(c: char, es: string, r: string)
    requires Plain(c) || c == '"'
    requires Unescape(es) == r
    ensures Unescape(EscapeChar(c) + es) == [c] + r
  {
    if c == '"' {
      UnescapeEscapedQuote(es);
    } else {
      assert EscapeChar(c) == [c];
      UnescapeOther(c, es);
    }
  }

  /** A value that is not a string, whose keys and strings hold no quote, and
      which the parser reads back from its compact text, comes back from
      `remove_spaces_value` unchanged when its string leaves are settled. */
  lemma RemoveSpacesValueRoundTrip(parser: JsonParser, v: Value)
    requires Shrinks(parser)
    requires !v.String? && TextsQuoteFree(v)
    requires parser(Serialize(v)) == Parsed(v)
    requires Settled(parser, v)
    ensures RemoveSpacesValue(parser, v) == Ok(v)
  {
    var t := Serialize(v);
    RewriteOfSerialized(v);
    StringLeaf(parser, t);
    SettledIsFixpoint(parser, v);
  }

  /** A string value of plain characters and quotes, which the parser calls
      "expected value", comes back from `remove_spaces_value` unchanged: the
      rewrites strip the quotes the serialiser put around it and turn each
      escaped quote back into a quote. */
  lemma RemoveSpacesStringRoundTrip(parser: JsonParser, t: string)
    requires Shrinks(parser)
    requires forall i :: 0 <= i < |t| ==> Plain(t[i]) || t[i] == '"'
    requires parser(t) == Rejected(ExpectedValue)
    ensures RemoveSpacesValue(parser, String(t)) == Ok(String(t))
  {
    var s := Serialize(String(t));
    assert s == "\"" + EscapeChars(t) + "\"";
    StripQuotesOfQuoted(EscapeChars(t));
    UnescapeQuotedEscapes(t);
    assert Rewrite(s) == t;
    StringLeaf(parser, s);
  }

  /** `remove_spaces_value` as its evident purpose asks: the compact text is
      handed to the parser as it is, and what the parser reads is normalised.
      The rewrites of `parse` are meant for text that is itself a
      stringified document, which the compact text of a value is not. */
  function RemoveSpacesValueIntended(parser: JsonParser, v: Value): (r: Result<Value>)
    requires Shrinks(parser)
    ensures !r.Panic?
    ensures parser(Serialize(v)).Parsed? && parser(Serialize(v)).value.Object? && r.Ok? ==>
      r.value.Object? && Keys(r.value.members) == Keys(parser(Serialize(v)).value.members)
  {
    match parser(Serialize(v))
    case Parsed(w) => ParseValue(parser, w)
    case Rejected(ExpectedValue) => Ok(String(Serialize(v)))
    case Rejected(Other(d)) => Err(JSONParsing(d))
  }

  /** A value the parser reads back from its compact text comes back
      unchanged when its string leaves are settled, whatever its strings
      hold. */
  lemma RemoveSpacesValueIntendedRoundTrip(parser: JsonParser, v: Value)
    requires Shrinks(parser)
    requires parser(Serialize(v)) == Parsed(v)
    requires Settled(parser, v)
    ensures RemoveSpacesValueIntended(parser, v) == Ok(v)
  {
    SettledIsFixpoint(parser, v);
  }

  /** Where the value is not a string and its keys and strings hold no
      quote, the rewrites do nothing and the two versions agree. */
  lemma RemoveSpacesValueAgrees(parser: JsonParser, v: Value)
    requires Shrinks(parser)
    requires !v.String? && TextsQuoteFree(v)
    ensures RemoveSpacesValue(parser, v) == RemoveSpacesValueIntended(parser, v)
  {
    RewriteOfSerialized(v);
    StringLeafOfText(parser, Serialize(v));
  }

  /** A text the rewrites leave alone is read as the intended version reads
      the compact text. */
  lemma StringLeafOfText(parser: JsonParser, t: string)
    requires Shrinks(parser) && Rewrite(t) == t
    ensures Parse(parser, t) ==
      match parser(t)
      case Parsed(w) => ParseValue(parser, w)
      case Rejected(ExpectedValue) => Ok(String(t))
      case Rejected(Other(d)) => Err(JSONParsing(d))
  {
  }

  /** The member `"a"` holding the three characters `x"y`: its compact text
      escapes the quote, the unescaping in `parse` turns that escape back
      into a bare quote, and the text handed to the parser is no longer the
      value's text. */
  lemma QuotedLeafRewritten(v: Value)
    requires v == Object([Member("a", String("x\"y"))])
    ensures Serialize(v) == "{\"a\":\"x\\\"y\"}"
    ensures Rewrite(Serialize(v)) == "{\"a\":\"x\"y\"}"
    ensures Rewrite(Serialize(v)) != Serialize(v)
  {
    QuotedLeafText(v);
    QuotedLeafUnescaped();
  }

  lemma QuotedLeafText(v: Value)
    requires v == Object([Member("a", String("x\"y"))])
    ensures Serialize(v) == "{\"a\":\"x\\\"y\"}"
  {
    OneMemberText("a", "x\"y");
    EscapeCharsPlain("a");
    assert "x\"y" == ['x', '"', 'y'];
    EscapeInnerQuote('x', 'y');
    assert EscapeChars("x\"y") == "x\\\"y";
    assert "{\"" + "a" + "\":\"" + "x\\\"y" + "\"}" == "{\"a\":\"x\\\"y\"}";
  }

  /** The text of an object with one member holding a string. */
  lemma OneMemberText(k: string, t: string)
    ensures Serialize(Object([Member(k, String(t))])) == "{\"" + EscapeChars(k) + "\":\"" + EscapeChars(t) + "\"}"
  {
    var ms := [Member(k, String(t))];
    assert MembersText(ms) == MemberText(ms[0]);
    var ek, et := EscapeChars(k), EscapeChars(t);
    assert Serialize(Object(ms)) == "{" + ((("\"" + ek) + "\"") + ":" + (("\"" + et) + "\"")) + "}";
    OneMemberRegroup(ek, et);
  }

  lemma OneMemberRegroup(ek: string, et: string)
    ensures "{" + ((("\"" + ek) + "\"") + ":" + (("\"" + et) + "\"")) + "}" == "{\"" + ek + "\":\"" + et + "\"}"
  {
    Flatten("{", "\"", ek, ":", et, "}");
    MergeSeparators();
  }

  lemma EscapeInnerQuote(c: char, d: char)
    requires Plain(c) && Plain(d)
    ensures EscapeChars([c, '"', d]) == [c, '\\', '"', d]
  {
    assert [c, '"', d][1..] == ['"', d] && ['"', d][1..] == [d] && [d][1..] == [];
    assert EscapeChar(c) == [c] && EscapeChar(d) == [d];
    assert EscapeChars([d]) == [d];
    assert EscapeChars(['"', d]) == ['\\', '"', d];
  }

  lemma QuotedLeafUnescaped()
    ensures Rewrite("{\"a\":\"x\\\"y\"}") == "{\"a\":\"x\"y\"}"
  {
    var p, q := "{\"a\":\"x", "y\"}";
    assert "{\"a\":\"x\\\"y\"}" == p + "\\\"" + q;
    assert "{\"a\":\"x\"y\"}" == p + "\"" + q;
    assert '\\' !in p && '\\' !in q && p[0] != '"' && q[|q| - 1] != '"';
    RewriteOneEscape(p, q);
  }

  /** One escaped quote between two texts without backslashes, in a text
      that neither begins nor ends with a quote, becomes a bare quote. */
  lemma RewriteOneEscape(p: string, q: string)
    requires '\\' !in p && '\\' !in q
    requires p != [] && p[0] != '"' && q != [] && q[|q| - 1] != '"'
    ensures Rewrite(p + "\\\"" + q) == p + "\"" + q
  {
    var s := p + "\\\"" + q;
    assert s[0] == p[0] && s[|s| - 1] == q[|q| - 1];
    assert StripQuotes(s) == s;
    UnescapeOneEscape(p, q);
  }

  lemma UnescapeOneEscape(p: string, q: string)
    requires '\\' !in p && '\\' !in q
    ensures Unescape(p + "\\\"" + q) == p + "\"" + q
  {
    UnescapeConcat(p, "\\\"" + q);
    UnescapeWithoutBackslashes(p);
    UnescapeEscapedQuote(q);
    UnescapeWithoutBackslashes(q);
    Associative(p, "\\\"", q);
    Associative(p, "\"", q);
  }

  /** With that member, a parser refusing the rewritten text makes
      `remove_spaces_value` fail. */
  lemma QuotedLeafFails(parser: JsonParser, v: Value, d: string)
    requires Shrinks(parser)
    requires v == Object([Member("a", String("x\"y"))])
    requires parser("{\"a\":\"x\"y\"}") == Rejected(Other(d))
    ensures RemoveSpacesValue(parser, v) == Err(JSONParsing(d))
  {
    QuotedLeafRewritten(v);
  }

  /** The intended version returns that value, given the parser reads it
      back from its text and takes `x"y` for no JSON value. */
  lemma QuotedLeafIntended(parser: JsonParser, v: Value)
    requires Shrinks(parser)
    requires v == Object([Member("a", String("x\"y"))])
    requires parser(Serialize(v)) == Parsed(v) && parser("x\"y") == Rejected(ExpectedValue)
    ensures RemoveSpacesValueIntended(parser, v) == Ok(v)
  {
    PlainLeafSettled(parser, "x\"y");
    OneMemberSettled(parser, "a", "x\"y");
    RemoveSpacesValueIntendedRoundTrip(parser, v);
  }

  lemma OneMemberSettled(parser: JsonParser, k: string, t: string)
    requires Settled(parser, String(t))
    ensures Settled(parser, Object([Member(k, String(t))]))
  {
  }

  /** A text without backslashes that neither begins nor ends with a quote
      is left alone by the rewrites. */
  lemma PlainLeafSettled(parser: JsonParser, t: string)
    requires '\\' !in t && t != [] && t[0] != '"' && t[|t| - 1] != '"'
    requires parser(t) == Rejected(ExpectedValue)
    ensures Settled(parser, String(t))
  {
    UnescapeWithoutBackslashes(t);
  }

  /** A spaced-out document comes back compact. */
  lemma SpacedDocumentExample(parser: JsonParser, s: string)
    requires Shrinks(parser)
    requires s == "{\"a\": 1}"
    requires parser(s) == Parsed(Object([Member("a", Number(1))]))
    ensures RemoveSpacesStr(parser, s) == Ok("{\"a\":1}")
  {
    var ms := [Member("a", Number(1))];
    SpacedDocumentParses(parser, s, ms);
    CompactMemberText(ms);
  }

  lemma SpacedDocumentParses(parser: JsonParser, s: string, ms: seq<Member>)
    requires Shrinks(parser)
    requires s == "{\"a\": 1}" && ms == [Member("a", Number(1))]
    requires parser(s) == Parsed(Object(ms))
    ensures Parse(parser, s) == Ok(Object(ms))
  {
    assert s[0] == '{' && s[|s| - 1] == '}';
    assert '\\' !in s;
    assert forall i :: 0 <= i < |ms| ==> Settled(parser, ms[i].value);
    PlainDocumentParses(parser, s, Object(ms));
  }

  /** A text with no backslash and no quote at either end is handed to the
      parser as it is; a settled value it parses to is the result. */
  lemma PlainDocumentParses(parser: JsonParser, s: string, v: Value)
    requires Shrinks(parser)
    requires s != [] && s[0] != '"' && s[|s| - 1] != '"' && '\\' !in s
    requires parser(s) == Parsed(v) && Settled(parser, v)
    ensures Parse(parser, s) == Ok(v)
  {
    UnescapeWithoutBackslashes(s);
    assert Rewrite(s) == s;
    StringLeaf(parser, s);
    SettledIsFixpoint(parser, v);
  }

  lemma CompactMemberText(ms: seq<Member>)
    requires ms == [Member("a", Number(1))]
    ensures Serialize(Object(ms)) == "{\"a\":1}"
  {
    EscapeCharsPlain("a");
    assert MembersText(ms) == MemberText(ms[0]);
    assert Serialize(Number(1)) == "1";
  }
}
