/** Recursive undoing of redundant stringification (`parse` and `parse_value`). */
module Normalizer {
  import opened Results
  import opened Json
  import opened TextRewrite

  /** How the JSON parser refuses a text: "expected value" (the text is not a
      JSON value at all), or any other diagnostic. */
  datatype ParseErr = ExpectedValue | Other(diagnostic: string)

  datatype ParserOutput = Parsed(value: Value) | Rejected(reason: ParseErr)

  /** The JSON parser (`serde_json::from_str`) is not part of this model; every
      operation that needs it takes it as a parameter. */
  type JsonParser = string -> ParserOutput

  /** What the model needs of the parser: a parsed value is no larger than the
      text it came from (a string literal needs its two quotes, a composite
      its brackets). */
  ghost predicate Shrinks(parser: JsonParser)
  {
    forall t :: parser(t).Parsed? ==> Size(parser(t).value) <= |t|
  }

  /** `parse_value`. A string is rewritten and re-parsed; when the parser says
      "expected value" the rewritten text is a plain string leaf, and any other
      refusal is an error. Arrays and objects are normalised element by
      element, the first error winning; other values stay as they are. */
  function ParseValue(parser: JsonParser, v: Value): (r: Result<Value>)
    requires Shrinks(parser)
    ensures !r.Panic?
    ensures v.Null? || v.Bool? || v.Number? ==> r == Ok(v)
    ensures v.Array? && r.Ok? ==> r.value.Array? && |r.value.items| == |v.items|
    ensures v.Object? && r.Ok? ==> r.value.Object? && Keys(r.value.members) == Keys(v.members)
    decreases Size(v), 1
  {
    match v
    case String(u) =>
      var t := Rewrite(u);
      (match parser(t)
       case Parsed(w) => ParseValue(parser, w)
       case Rejected(ExpectedValue) => Ok(String(t))
       case Rejected(Other(d)) => Err(JSONParsing(d)))
    case Array(xs) =>
      (match ParseItems(parser, xs)
       case Ok(ys) => Ok(Array(ys))
       case Err(e) => Err(e)
       case Panic => Panic)
    case Object(ms) =>
      (match ParseMembers(parser, ms)
       case Ok(ns) => Ok(Object(ns))
       case Err(e) => Err(e)
       case Panic => Panic)
    case _ => Ok(v)
  }

  /** Normalises the elements in order and stops at the first error. */
  function ParseItems(parser: JsonParser, xs: seq<Value>): (r: Result<seq<Value>>)
    requires Shrinks(parser)
    ensures !r.Panic?
    ensures r.Ok? ==> |r.value| == |xs|
    decreases ItemsSize(xs), 2
  {
    if xs == [] then Ok([])
    else
      match ParseValue(parser, xs[0])
      case Err(e) => Err(e)
      case Panic => Panic
      case Ok(y) =>
        match ParseItems(parser, xs[1..])
        case Ok(ys) => Ok([y] + ys)
        case Err(e) => Err(e)
        case Panic => Panic
  }

  /** Normalises the member values in order, keeping each key, and stops at
      the first error. */
  function ParseMembers(parser: JsonParser, ms: seq<Member>): (r: Result<seq<Member>>)
    requires Shrinks(parser)
    ensures !r.Panic?
    ensures r.Ok? ==> Keys(r.value) == Keys(ms)
    decreases MembersSize(ms), 2
  {
    if ms == [] then Ok([])
    else
      match ParseValue(parser, ms[0].value)
      case Err(e) => Err(e)
      case Panic => Panic
      case Ok(y) =>
        match ParseMembers(parser, ms[1..])
        case Ok(ns) =>
          KeysCons(ms, y, ns);
          Ok([Member(ms[0].key, y)] + ns)
        case Err(e) => Err(e)
        case Panic => Panic
  }

  /** `parse`: the input text is treated as a JSON string value. */
  function Parse(parser: JsonParser, input: string): (r: Result<Value>)
    requires Shrinks(parser)
    ensures '"' !in input && parser(input) == Rejected(ExpectedValue) ==> r == Ok(String(input))
  {
    ParseValue(parser, String(input))
  }

  // ---------------------------------------------------------------------------
  // Arrays and objects: element-wise, in order, first error wins.
  // ---------------------------------------------------------------------------

  lemma {:induction false} ParseItemsElementwise(parser: JsonParser, xs: seq<Value>)
    requires Shrinks(parser)
    ensures ParseItems(parser, xs).Ok? <==> forall i :: 0 <= i < |xs| ==> ParseValue(parser, xs[i]).Ok?
    ensures ParseItems(parser, xs).Ok? ==>
      forall i :: 0 <= i < |xs| ==> ParseItems(parser, xs).value[i] == ParseValue(parser, xs[i]).value
    ensures ParseItems(parser, xs).Err? ==>
      exists j :: 0 <= j < |xs| && ParseValue(parser, xs[j]) == Err(ParseItems(parser, xs).error) &&
        forall i :: 0 <= i < j ==> ParseValue(parser, xs[i]).Ok?
    decreases |xs|
  {
    if xs != [] {
      ParseItemsElementwise(parser, xs[1..]);
      var h := ParseValue(parser, xs[0]);
      if h.Err? {
        ItemsHeadFails(parser, xs);
      } else if ParseItems(parser, xs[1..]).Ok? {
        ItemsAllOk(parser, xs);
      } else {
        ItemsRestFails(parser, xs);
      }
    }
  }

  /** The three facts `ParseItemsElementwise` states, for one list. */
  ghost predicate ItemsAgree(parser: JsonParser, xs: seq<Value>)
    requires Shrinks(parser)
  {
    && (ParseItems(parser, xs).Ok? <==> forall i :: 0 <= i < |xs| ==> ParseValue(parser, xs[i]).Ok?)
    && (ParseItems(parser, xs).Ok? ==>
          forall i :: 0 <= i < |xs| ==> ParseItems(parser, xs).value[i] == ParseValue(parser, xs[i]).value)
    && (ParseItems(parser, xs).Err? ==>
          exists j :: 0 <= j < |xs| && ParseValue(parser, xs[j]) == Err(ParseItems(parser, xs).error) &&
            forall i :: 0 <= i < j ==> ParseValue(parser, xs[i]).Ok?)
  }

  lemma ItemsHeadFails(parser: JsonParser, xs: seq<Value>)
    requires Shrinks(parser) && xs != [] && ParseValue(parser, xs[0]).Err?
    ensures ItemsAgree(parser, xs)
  {
    assert ParseItems(parser, xs) == Err(ParseValue(parser, xs[0]).error);
  }

  lemma ItemsAllOk(parser: JsonParser, xs: seq<Value>)
    requires Shrinks(parser) && xs != [] && ParseValue(parser, xs[0]).Ok?
    requires ItemsAgree(parser, xs[1..]) && ParseItems(parser, xs[1..]).Ok?
    ensures ItemsAgree(parser, xs)
  {
    var rest := xs[1..];
    var ys := ParseItems(parser, rest).value;
    var r := [ParseValue(parser, xs[0]).value] + ys;
    ItemsCons(parser, xs);
    forall i | 0 <= i < |xs|
      ensures ParseValue(parser, xs[i]).Ok?
      ensures r[i] == ParseValue(parser, xs[i]).value
    {
      if i > 0 {
        assert rest[i - 1] == xs[i] && r[i] == ys[i - 1];
      }
    }
  }

  /** Both the head and the rest succeed: the head's result goes in front. */
  lemma ItemsCons(parser: JsonParser, xs: seq<Value>)
    requires Shrinks(parser) && xs != [] && ParseValue(parser, xs[0]).Ok?
    requires ParseItems(parser, xs[1..]).Ok?
    ensures ParseItems(parser, xs) == Ok([ParseValue(parser, xs[0]).value] + ParseItems(parser, xs[1..]).value)
  {
  }

  lemma ItemsRestFails(parser: JsonParser, xs: seq<Value>)
    requires Shrinks(parser) && xs != [] && ParseValue(parser, xs[0]).Ok?
    requires ItemsAgree(parser, xs[1..]) && ParseItems(parser, xs[1..]).Err?
    ensures ItemsAgree(parser, xs)
  {
    var rest := xs[1..];
    var e := ParseItems(parser, rest).error;
    assert ParseItems(parser, xs) == Err(e);
    var j :| 0 <= j < |rest| && ParseValue(parser, rest[j]) == Err(e) &&
      forall i :: 0 <= i < j ==> ParseValue(parser, rest[i]).Ok?;
    assert forall i :: 1 <= i < |xs| ==> rest[i - 1] == xs[i];
    assert ParseValue(parser, xs[j + 1]) == Err(e);
  }

  lemma {:induction false} ParseMembersElementwise(parser: JsonParser, ms: seq<Member>)
    requires Shrinks(parser)
    ensures ParseMembers(parser, ms).Ok? <==> forall i :: 0 <= i < |ms| ==> ParseValue(parser, ms[i].value).Ok?
    ensures ParseMembers(parser, ms).Ok? ==>
      forall i :: 0 <= i < |ms| ==>
        ParseMembers(parser, ms).value[i] == Member(ms[i].key, ParseValue(parser, ms[i].value).value)
    ensures ParseMembers(parser, ms).Err? ==>
      exists j :: 0 <= j < |ms| && ParseValue(parser, ms[j].value) == Err(ParseMembers(parser, ms).error) &&
        forall i :: 0 <= i < j ==> ParseValue(parser, ms[i].value).Ok?
    decreases |ms|
  {
    if ms != [] {
      ParseMembersElementwise(parser, ms[1..]);
      var h := ParseValue(parser, ms[0].value);
      if h.Err? {
        MembersHeadFails(parser, ms);
      } else if ParseMembers(parser, ms[1..]).Ok? {
        MembersAllOk(parser, ms);
      } else {
        MembersRestFails(parser, ms);
      }
    }
  }

  /** The three facts `ParseMembersElementwise` states, for one member list. */
  ghost predicate MembersAgree(parser: JsonParser, ms: seq<Member>)
    requires Shrinks(parser)
  {
    && (ParseMembers(parser, ms).Ok? <==> forall i :: 0 <= i < |ms| ==> ParseValue(parser, ms[i].value).Ok?)
    && (ParseMembers(parser, ms).Ok? ==>
          forall i :: 0 <= i < |ms| ==>
            ParseMembers(parser, ms).value[i] == Member(ms[i].key, ParseValue(parser, ms[i].value).value))
    && (ParseMembers(parser, ms).Err? ==>
          exists j :: 0 <= j < |ms| && ParseValue(parser, ms[j].value) == Err(ParseMembers(parser, ms).error) &&
            forall i :: 0 <= i < j ==> ParseValue(parser, ms[i].value).Ok?)
  }

  lemma MembersHeadFails(parser: JsonParser, ms: seq<Member>)
    requires Shrinks(parser) && ms != [] && ParseValue(parser, ms[0].value).Err?
    ensures MembersAgree(parser, ms)
  {
    assert ParseMembers(parser, ms) == Err(ParseValue(parser, ms[0].value).error);
  }

  lemma MembersAllOk(parser: JsonParser, ms: seq<Member>)
    requires Shrinks(parser) && ms != [] && ParseValue(parser, ms[0].value).Ok?
    requires MembersAgree(parser, ms[1..]) && ParseMembers(parser, ms[1..]).Ok?
    ensures MembersAgree(parser, ms)
  {
    var rest := ms[1..];
    var ns := ParseMembers(parser, rest).value;
    var r := [Member(ms[0].key, ParseValue(parser, ms[0].value).value)] + ns;
    MembersCons(parser, ms);
    forall i | 0 <= i < |ms|
      ensures ParseValue(parser, ms[i].value).Ok?
      ensures r[i] == Member(ms[i].key, ParseValue(parser, ms[i].value).value)
    {
      if i > 0 {
        assert rest[i - 1] == ms[i] && r[i] == ns[i - 1];
      }
    }
  }

  /** Both the head and the rest succeed: the head's member goes in front. */
  lemma MembersCons(parser: JsonParser, ms: seq<Member>)
    requires Shrinks(parser) && ms != [] && ParseValue(parser, ms[0].value).Ok?
    requires ParseMembers(parser, ms[1..]).Ok?
    ensures ParseMembers(parser, ms) ==
      Ok([Member(ms[0].key, ParseValue(parser, ms[0].value).value)] + ParseMembers(parser, ms[1..]).value)
  {
  }

  lemma MembersRestFails(parser: JsonParser, ms: seq<Member>)
    requires Shrinks(parser) && ms != [] && ParseValue(parser, ms[0].value).Ok?
    requires MembersAgree(parser, ms[1..]) && ParseMembers(parser, ms[1..]).Err?
    ensures MembersAgree(parser, ms)
  {
    var rest := ms[1..];
    var e := ParseMembers(parser, rest).error;
    assert ParseMembers(parser, ms) == Err(e);
    var j :| 0 <= j < |rest| && ParseValue(parser, rest[j].value) == Err(e) &&
      forall i :: 0 <= i < j ==> ParseValue(parser, rest[i].value).Ok?;
    assert forall i :: 1 <= i < |ms| ==> rest[i - 1] == ms[i];
    assert ParseValue(parser, ms[j + 1].value) == Err(e);
  }

  // ---------------------------------------------------------------------------
  // String leaves.
  // ---------------------------------------------------------------------------

  /** How a string is decided: by what the parser makes of its rewritten text. */
  lemma StringLeaf(parser: JsonParser, u: string)
    requires Shrinks(parser)
    ensures var t := Rewrite(u);
      && (parser(t) == Rejected(ExpectedValue) ==> ParseValue(parser, String(u)) == Ok(String(t)))
      && (parser(t).Rejected? && parser(t).reason.Other? ==>
            ParseValue(parser, String(u)) == Err(JSONParsing(parser(t).reason.diagnostic)))
      && (parser(t).Parsed? ==> ParseValue(parser, String(u)) == ParseValue(parser, parser(t).value))
  {
  }

  /** Every string leaf of `v` is a text on which the parser reports "expected value". */
  ghost predicate Normalized(parser: JsonParser, v: Value)
    decreases v
  {
    match v
    case String(t) => parser(t) == Rejected(ExpectedValue)
    case Array(xs) => forall i :: 0 <= i < |xs| ==> Normalized(parser, xs[i])
    case Object(ms) => forall i :: 0 <= i < |ms| ==> Normalized(parser, ms[i].value)
    case _ => true
  }

  /** Normalisation goes all the way down: no string leaf of a result is
      itself a JSON document. */
  lemma {:induction false} ResultNormalized(parser: JsonParser, v: Value)
    requires Shrinks(parser)
    ensures ParseValue(parser, v).Ok? ==> Normalized(parser, ParseValue(parser, v).value)
    decreases Size(v)
  {
    match v
    case String(u) =>
      var t := Rewrite(u);
      if parser(t).Parsed? {
        ResultNormalized(parser, parser(t).value);
      }
    case Array(xs) =>
      ParseItemsElementwise(parser, xs);
      forall i | 0 <= i < |xs| && ParseItems(parser, xs).Ok?
        ensures Normalized(parser, ParseItems(parser, xs).value[i])
      {
        ItemSmaller(xs, i);
        ResultNormalized(parser, xs[i]);
      }
    case Object(ms) =>
      ParseMembersElementwise(parser, ms);
      forall i | 0 <= i < |ms| && ParseMembers(parser, ms).Ok?
        ensures Normalized(parser, ParseMembers(parser, ms).value[i].value)
      {
        MemberSmaller(ms, i);
        ResultNormalized(parser, ms[i].value);
      }
    case _ =>
  }

  /** Every string leaf of `v` is a normalised leaf that the rewrites leave alone. */
  ghost predicate Settled(parser: JsonParser, v: Value)
    decreases v
  {
    match v
    case String(t) => parser(t) == Rejected(ExpectedValue) && Rewrite(t) == t
    case Array(xs) => forall i :: 0 <= i < |xs| ==> Settled(parser, xs[i])
    case Object(ms) => forall i :: 0 <= i < |ms| ==> Settled(parser, ms[i].value)
    case _ => true
  }

  /** Normalising a settled value changes nothing. */
  lemma {:induction false} SettledIsFixpoint(parser: JsonParser, v: Value)
    requires Shrinks(parser) && Settled(parser, v)
    ensures ParseValue(parser, v) == Ok(v)
    decreases Size(v)
  {
    match v
    case String(t) =>
    case Array(xs) =>
      forall i | 0 <= i < |xs| ensures ParseValue(parser, xs[i]) == Ok(xs[i]) {
        ItemSmaller(xs, i);
        SettledIsFixpoint(parser, xs[i]);
      }
      ParseItemsElementwise(parser, xs);
      assert ParseItems(parser, xs).value == xs;
    case Object(ms) =>
      forall i | 0 <= i < |ms| ensures ParseValue(parser, ms[i].value) == Ok(ms[i].value) {
        MemberSmaller(ms, i);
        SettledIsFixpoint(parser, ms[i].value);
      }
      ParseMembersElementwise(parser, ms);
      assert ParseMembers(parser, ms).value == ms;
    case _ =>
  }

  /** No string leaf of `v` contains a quote. */
  predicate QuoteFree(v: Value)
    decreases v
  {
    match v
    case String(t) => '"' !in t
    case Array(xs) => forall i :: 0 <= i < |xs| ==> QuoteFree(xs[i])
    case Object(ms) => forall i :: 0 <= i < |ms| ==> QuoteFree(ms[i].value)
    case _ => true
  }

  /** Every string leaf of `v` is a text the rewrites leave as it is. */
  predicate LeavesFixed(v: Value)
    decreases v
  {
    match v
    case String(t) => Rewrite(t) == t
    case Array(xs) => forall i :: 0 <= i < |xs| ==> LeavesFixed(xs[i])
    case Object(ms) => forall i :: 0 <= i < |ms| ==> LeavesFixed(ms[i].value)
    case _ => true
  }

  /** A text without quotes is left alone by the rewrites, so quote-free
      leaves are fixed. */
  lemma {:induction false} QuoteFreeLeavesFixed(v: Value)
    requires QuoteFree(v)
    ensures LeavesFixed(v)
    decreases v
  {
    match v
    case String(t) =>
    case Array(xs) =>
      forall i | 0 <= i < |xs| ensures LeavesFixed(xs[i]) {
        QuoteFreeLeavesFixed(xs[i]);
      }
    case Object(ms) =>
      forall i | 0 <= i < |ms| ensures LeavesFixed(ms[i].value) {
        QuoteFreeLeavesFixed(ms[i].value);
      }
    case _ =>
  }

  lemma {:induction false} NormalizedLeavesFixedIsSettled(parser: JsonParser, v: Value)
    requires Normalized(parser, v) && LeavesFixed(v)
    ensures Settled(parser, v)
    decreases v
  {
    match v
    case String(t) =>
    case Array(xs) =>
      forall i | 0 <= i < |xs| ensures Settled(parser, xs[i]) {
        NormalizedLeavesFixedIsSettled(parser, xs[i]);
      }
    case Object(ms) =>
      forall i | 0 <= i < |ms| ensures Settled(parser, ms[i].value) {
        NormalizedLeavesFixedIsSettled(parser, ms[i].value);
      }
    case _ =>
  }

  /** Normalising twice gives what normalising once gave, when the rewrites
      leave every leaf of the first result alone (otherwise they would act
      again); a result whose leaves hold no quote is one. */
  lemma Idempotent(parser: JsonParser, v: Value)
    requires Shrinks(parser)
    requires ParseValue(parser, v).Ok? && LeavesFixed(ParseValue(parser, v).value)
    ensures ParseValue(parser, ParseValue(parser, v).value) == ParseValue(parser, v)
  {
    ResultNormalized(parser, v);
    NormalizedLeavesFixedIsSettled(parser, ParseValue(parser, v).value);
    SettledIsFixpoint(parser, ParseValue(parser, v).value);
  }

  // ---------------------------------------------------------------------------
  // Unique keys are kept.
  // ---------------------------------------------------------------------------

  /** The parser only produces objects with unique keys. */
  ghost predicate ParsesWellFormed(parser: JsonParser)
  {
    forall t :: parser(t).Parsed? ==> WellFormed(parser(t).value)
  }

  lemma {:induction false} ResultWellFormed(parser: JsonParser, v: Value)
    requires Shrinks(parser) && ParsesWellFormed(parser) && WellFormed(v)
    ensures ParseValue(parser, v).Ok? ==> WellFormed(ParseValue(parser, v).value)
    decreases Size(v)
  {
    match v
    case String(u) =>
      var t := Rewrite(u);
      if parser(t).Parsed? {
        ResultWellFormed(parser, parser(t).value);
      }
    case Array(xs) =>
      ParseItemsElementwise(parser, xs);
      forall i | 0 <= i < |xs| && ParseItems(parser, xs).Ok?
        ensures WellFormed(ParseItems(parser, xs).value[i])
      {
        ItemSmaller(xs, i);
        ResultWellFormed(parser, xs[i]);
      }
    case Object(ms) =>
      ParseMembersElementwise(parser, ms);
      if ParseMembers(parser, ms).Ok? {
        var ns := ParseMembers(parser, ms).value;
        assert forall i :: 0 <= i < |ms| ==> ns[i].key == Keys(ns)[i] == Keys(ms)[i] == ms[i].key;
        forall i | 0 <= i < |ms| ensures WellFormed(ns[i].value) {
          MemberSmaller(ms, i);
          ResultWellFormed(parser, ms[i].value);
        }
      }
    case _ =>
  }

  // ---------------------------------------------------------------------------
  // Examples, with what each needs of the parser stated as a requirement.
  // ---------------------------------------------------------------------------

  /** A quoted plain word comes back as the word. */
  lemma PlainStringExample(parser: JsonParser)
    requires Shrinks(parser)
    requires parser("hello") == Rejected(ExpectedValue)
    ensures Parse(parser, "\"hello\"") == Ok(String("hello"))
  {
    assert "\"hello\"" == "\"" + "hello" + "\"";
    StripQuotesOfQuoted("hello");
    assert '"' !in "hello";
    UnescapeWithoutQuotes("hello");
    assert Rewrite("\"hello\"") == "hello";
    StringLeaf(parser, "\"hello\"");
  }

  /** A document wrapped in quotes is unwrapped before it is parsed, and its
      string members end as plain leaves. */
  lemma QuotedDocumentExample(parser: JsonParser, inner: string, ms: seq<Member>)
    requires Shrinks(parser)
    requires inner == "{\"name\": \"John\", \"age\": 30}"
    requires ms == [Member("name", String("John")), Member("age", Number(30))]
    requires parser(inner) == Parsed(Object(ms))
    requires parser("John") == Rejected(ExpectedValue)
    ensures Parse(parser, "\"" + inner + "\"") == Ok(Object(ms))
  {
    assert '\\' !in inner;
    RewriteOfQuoted(inner);
    StringLeaf(parser, "\"" + inner + "\"");
    SettledPerson(parser, ms);
    SettledIsFixpoint(parser, Object(ms));
  }

  lemma SettledPerson(parser: JsonParser, ms: seq<Member>)
    requires parser("John") == Rejected(ExpectedValue)
    requires ms == [Member("name", String("John")), Member("age", Number(30))]
    ensures Settled(parser, Object(ms))
  {
    PlainSettled(parser, "John");
    assert forall i :: 0 <= i < |ms| ==> Settled(parser, ms[i].value);
  }

  /** A text without quotes that the parser rejects as "expected value" is settled. */
  lemma PlainSettled(parser: JsonParser, t: string)
    requires '"' !in t && parser(t) == Rejected(ExpectedValue)
    ensures Settled(parser, String(t))
  {
    UnescapeWithoutQuotes(t);
  }

  /** A text without quotes that the parser does not take as a value is a leaf as it is. */
  lemma PlainLeaf(parser: JsonParser, t: string)
    requires Shrinks(parser)
    requires '"' !in t && parser(t) == Rejected(ExpectedValue)
    ensures ParseValue(parser, String(t)) == Ok(String(t))
  {
  }

  /** Quoting a text without backslashes is undone by the rewrites. */
  lemma RewriteOfQuoted(inner: string)
    requires '\\' !in inner
    ensures Rewrite("\"" + inner + "\"") == inner
  {
    StripQuotesOfQuoted(inner);
    UnescapeWithoutBackslashes(inner);
  }

  /** One extra level of quoting and escaping is undone, and the document
      inside is parsed: the object comes back, not the intermediate string. */
  lemma EscapedDocumentExample(parser: JsonParser)
    requires Shrinks(parser)
    requires parser("{\"a\":1}") == Parsed(Object([Member("a", Number(1))]))
    ensures Parse(parser, "\"{\\\"a\\\":1}\"") == Ok(Object([Member("a", Number(1))]))
  {
    EscapedInner();
    StringLeaf(parser, "\"{\\\"a\\\":1}\"");
    var ms := [Member("a", Number(1))];
    assert Settled(parser, ms[0].value);
    SettledIsFixpoint(parser, Object(ms));
  }

  lemma EscapedInner()
    ensures Rewrite("\"{\\\"a\\\":1}\"") == "{\"a\":1}"
  {
    var y := "\\\"" + ":1}";
    var x := ['a'] + y;
    var e := ['{'] + ("\\\"" + x);
    assert "\"{\\\"a\\\":1}\"" == "\"" + e + "\"";
    StripQuotesOfQuoted(e);
    EscapedBody(e, x, y);
  }

  lemma EscapedBody(e: string, x: string, y: string)
    requires y == "\\\"" + ":1}" && x == ['a'] + y && e == ['{'] + ("\\\"" + x)
    ensures Unescape(e) == "{\"a\":1}"
  {
    EscapedTail(x, y);
    UnescapeOther('{', "\\\"" + x);
    assert "{" + ("\"" + ("a" + ("\"" + ":1}"))) == "{\"a\":1}";
  }

  lemma EscapedTail(x: string, y: string)
    requires y == "\\\"" + ":1}" && x == ['a'] + y
    ensures Unescape("\\\"" + x) == "\"" + ("a" + ("\"" + ":1}"))
  {
    UnescapeEscapedQuote(x);
    UnescapeOther('a', y);
    UnescapeEscapedQuote(":1}");
    assert '"' !in ":1}";
    UnescapeWithoutQuotes(":1}");
  }

  /** A backslash-quote pair is one escaped quote: it becomes a bare quote. */
  lemma UnescapeEscapedQuote(q: string)
    ensures Unescape("\\\"" + q) == "\"" + Unescape(q)
  {
    OddRunBeforeQuote(0, q);
    assert Backslashes(1) == "\\";
    assert Backslashes(0) == [];
    assert Backslashes(1) + "\"" + q == "\\\"" + q;
  }

  /** The broken document of the test module, written as its plain runs and
      its backslash runs, each closed by a quote: an escaped document whose
      string `hello` lost the backslash before its closing quote, and whose
      inner document has runs of two backslashes where three were meant. The
      rewrites keep those even runs, so the parser meets a string `{"a\`
      followed by `:` and refuses it with a diagnostic other than "expected
      value": the result is that error. */
  lemma BrokenDocumentExample(parser: JsonParser, input: string, ps: seq<Piece>, d: string)
    requires Shrinks(parser)
    requires ps == [
      Run(1), Text("name"), Run(1), Text(": "), Run(1), Text("John"), Run(1), Text(", "),
      Run(1), Text("age"), Run(1), Text(": 30, "),
      Run(1), Text("l"), Run(1), Text(": ["), Run(1), Text("hi"), Run(1), Text(", "),
      Run(1), Text("hello"), Run(0), Text(", 2], "),
      Run(1), Text("nested"), Run(1), Text(": "), Run(1), Text("{"),
      Run(3), Text("a"), Run(2), Text(": 2, "),
      Run(3), Text("b"), Run(2), Text(": "), Run(3), Text("hi"), Run(3), Text(", "),
      Run(3), Text("c"), Run(3), Text(": ["), Run(3), Text("hi"), Run(3), Text("]}"),
      Run(1)]
    requires input == "{" + Render(ps) + "}"
    requires parser("{" + RenderUnescaped(ps) + "}") == Rejected(Other(d))
    ensures Rewrite(input) == "{" + RenderUnescaped(ps) + "}"
    ensures Parse(parser, input) == Err(JSONParsing(d))
  {
    BracedDocumentRejected(parser, ps, d);
  }

  /** A braced document made of pieces whose unescaped text the parser
      refuses, other than as "expected value", is that error. */
  lemma BracedDocumentRejected(parser: JsonParser, ps: seq<Piece>, d: string)
    requires Shrinks(parser)
    requires parser("{" + RenderUnescaped(ps) + "}") == Rejected(Other(d))
    ensures Rewrite("{" + Render(ps) + "}") == "{" + RenderUnescaped(ps) + "}"
    ensures Parse(parser, "{" + Render(ps) + "}") == Err(JSONParsing(d))
  {
    RewriteBraced(ps);
    StringLeaf(parser, "{" + Render(ps) + "}");
  }
}
