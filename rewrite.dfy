/** The two text rewrites applied to a string before it is handed to the JSON
    parser: dropping one outer quote at either end (the pattern `(^")|("$)`
    replaced by nothing) and collapsing one level of escaped quotes (the
    pattern `(?<!\\)((?:\\\\)*)\\"`, whose replacement halves the backslash
    pairs and keeps a bare quote). */
module TextRewrite {
  import opened Results

  /** Removes one `"` at the start and one `"` at the end, when present. A
      text that is a single `"` loses it once. */
  function StripQuotes(s: string): (r: string)
    ensures |r| <= |s| && |s| <= |r| + 2
    ensures (s == [] || (s[0] != '"' && s[|s| - 1] != '"')) ==> r == s
    ensures |s| >= 2 && s[0] == '"' && s[|s| - 1] == '"' ==> s == "\"" + r + "\""
    ensures |s| >= 1 && s[0] == '"' && (|s| == 1 || s[|s| - 1] != '"') ==> s == "\"" + r
    ensures |s| >= 1 && s[0] != '"' && s[|s| - 1] == '"' ==> s == r + "\""
  {
    var lo := if |s| > 0 && s[0] == '"' then 1 else 0;
    var hi := if |s| > lo && s[|s| - 1] == '"' then |s| - 1 else |s|;
    s[lo..hi]
  }

  /** Putting quotes around a text and stripping them gives the text back. */
  lemma StripQuotesOfQuoted(t: string)
    ensures StripQuotes("\"" + t + "\"") == t
  {
  }

  /** The number of backslashes `s` starts with. */
  function LeadingBackslashes(s: string): (k: nat)
    ensures k <= |s|
    ensures forall i :: 0 <= i < k ==> s[i] == '\\'
    ensures k < |s| ==> s[k] != '\\'
    ensures k > 0 <==> s != [] && s[0] == '\\'
    decreases s
  {
    if s != [] && s[0] == '\\' then
      var k := 1 + LeadingBackslashes(s[1..]);
      assert forall i :: 1 <= i < k ==> s[i] == s[1..][i - 1];
      k
    else 0
  }

  /** The leading run is made of backslashes only. */
  lemma {:induction false} LeadingRun(s: string)
    ensures forall i :: 0 <= i < LeadingBackslashes(s) ==> s[i] == '\\'
    ensures s[..LeadingBackslashes(s)] == Backslashes(LeadingBackslashes(s))
    decreases |s|
  {
    if s != [] && s[0] == '\\' {
      LeadingRun(s[1..]);
      var k := LeadingBackslashes(s);
      assert forall i :: 1 <= i < k ==> s[i] == s[1..][i - 1];
    }
  }

  function Backslashes(n: nat): (r: string)
    ensures |r| == n
    ensures forall i :: 0 <= i < n ==> r[i] == '\\'
  {
    seq(n, _ => '\\')
  }

  /** Collapses one level of escaped quotes. A maximal run of 2n+1
      backslashes followed by `"` becomes n backslashes and `"`; an even run
      before `"`, and a run before any other character or at the end, is
      kept. */
  function Unescape(s: string): (r: string)
    ensures |r| <= |s|
    decreases |s|
  {
    if s == [] then []
    else if s[0] != '\\' then [s[0]] + Unescape(s[1..])
    else
      var k := LeadingBackslashes(s);
      if k < |s| && s[k] == '"' && k % 2 == 1 then
        Backslashes(k / 2) + "\"" + Unescape(s[k + 1..])
      else
        s[..k] + Unescape(s[k..])
  }

  /** Both rewrites, in the order the normaliser applies them. */
  function Rewrite(s: string): (r: string)
    ensures |r| <= |s|
    ensures '"' !in s ==> r == s
  {
    var r := Unescape(StripQuotes(s));
    assert '"' !in s ==> r == s by {
      if '"' !in s {
        UnescapeWithoutQuotes(s);
      }
    }
    r
  }

  /** Text with no quote has nothing to unescape. */
  lemma {:induction false} UnescapeWithoutQuotes(s: string)
    requires '"' !in s
    ensures Unescape(s) == s
    decreases |s|
  {
    if s != [] {
      if s[0] != '\\' {
        UnescapeWithoutQuotes(s[1..]);
      } else {
        var k := LeadingBackslashes(s);
        assert k < |s| ==> s[k] in s;
        UnescapeWithoutQuotes(s[k..]);
      }
    }
  }

  /** Text with no backslash has nothing to unescape. */
  lemma {:induction false} UnescapeWithoutBackslashes(s: string)
    requires '\\' !in s
    ensures Unescape(s) == s
    decreases |s|
  {
    if s != [] {
      assert s[0] in s;
      UnescapeWithoutBackslashes(s[1..]);
    }
  }

  // ---------------------------------------------------------------------------
  // Unescape, piece by piece: these lemmas together pin it down on every text.
  // ---------------------------------------------------------------------------

  /** Unescape works on runs that end inside a piece, so a piece not ending in a
      backslash is rewritten on its own. */
  lemma {:induction false} UnescapeConcat(p: string, q: string)
    requires p == [] || p[|p| - 1] != '\\'
    ensures Unescape(p + q) == Unescape(p) + Unescape(q)
    decreases |p|
  {
    if p == [] {
      assert p + q == q;
    } else if p[0] != '\\' {
      UnescapeConcat(p[1..], q);
      ConcatAtOther(p, q);
    } else {
      var k := LeadingBackslashes(p);
      LeadingRun(p);
      assert k < |p|;
      if p[k] == '"' && k % 2 == 1 {
        UnescapeConcat(p[k + 1..], q);
        ConcatAtOddRun(p, q, k);
      } else {
        UnescapeConcat(p[k..], q);
        ConcatAtKeptRun(p, q, k);
      }
    }
  }

  lemma ConcatAtOther(p: string, q: string)
    requires p != [] && p[0] != '\\'
    requires Unescape(p[1..] + q) == Unescape(p[1..]) + Unescape(q)
    ensures Unescape(p + q) == Unescape(p) + Unescape(q)
  {
    UnfoldUnescapeOther(p);
    OtherOfConcat(p, q);
    SamePrefix([p[0]], Unescape(p[1..]), Unescape(q), Unescape(p), Unescape(p + q));
  }

  lemma OtherOfConcat(p: string, q: string)
    requires p != [] && p[0] != '\\'
    ensures Unescape(p + q) == [p[0]] + Unescape(p[1..] + q)
  {
    assert (p + q)[0] == p[0];
    UnfoldUnescapeOther(p + q);
    DropOfConcat(p, q, 1);
  }

  lemma ConcatAtOddRun(p: string, q: string, k: nat)
    requires k == LeadingBackslashes(p) && k < |p| && p[k] == '"' && k % 2 == 1
    requires Unescape(p[k + 1..] + q) == Unescape(p[k + 1..]) + Unescape(q)
    ensures Unescape(p + q) == Unescape(p) + Unescape(q)
  {
    UnfoldUnescapeOddRun(p, k);
    OddRunOfConcat(p, q, k);
    SamePrefix(Backslashes(k / 2) + "\"", Unescape(p[k + 1..]), Unescape(q), Unescape(p), Unescape(p + q));
  }

  /** The odd run at the start of `p` is also the one at the start of `p + q`. */
  lemma OddRunOfConcat(p: string, q: string, k: nat)
    requires k == LeadingBackslashes(p) && k < |p| && p[k] == '"' && k % 2 == 1
    ensures Unescape(p + q) == Backslashes(k / 2) + "\"" + Unescape(p[k + 1..] + q)
  {
    RunPrefix(p, q, k);
    UnfoldUnescapeOddRun(p + q, k);
    DropOfConcat(p, q, k + 1);
  }

  lemma DropOfConcat(p: string, q: string, i: nat)
    requires i <= |p|
    ensures (p + q)[i..] == p[i..] + q
  {
  }

  /** If x == r + a and y == r + (a + b), then y == x + b. */
  lemma SamePrefix(r: string, a: string, b: string, x: string, y: string)
    requires x == r + a && y == r + (a + b)
    ensures y == x + b
  {
    Associative(r, a, b);
  }

  lemma ConcatAtKeptRun(p: string, q: string, k: nat)
    requires k == LeadingBackslashes(p) && 0 < k < |p|
    requires !(p[k] == '"' && k % 2 == 1)
    requires Unescape(p[k..] + q) == Unescape(p[k..]) + Unescape(q)
    ensures Unescape(p + q) == Unescape(p) + Unescape(q)
  {
    UnfoldUnescapeKeptRun(p, k);
    KeptRunOfConcat(p, q, k);
    SamePrefix(p[..k], Unescape(p[k..]), Unescape(q), Unescape(p), Unescape(p + q));
  }

  lemma KeptRunOfConcat(p: string, q: string, k: nat)
    requires k == LeadingBackslashes(p) && 0 < k < |p|
    requires !(p[k] == '"' && k % 2 == 1)
    ensures Unescape(p + q) == p[..k] + Unescape(p[k..] + q)
  {
    RunPrefix(p, q, k);
    UnfoldUnescapeKeptRun(p + q, k);
    TakeOfConcat(p, q, k);
    DropOfConcat(p, q, k);
  }

  lemma TakeOfConcat(p: string, q: string, i: nat)
    requires i <= |p|
    ensures (p + q)[..i] == p[..i]
  {
  }

  lemma RunPrefix(p: string, q: string, k: nat)
    requires k == LeadingBackslashes(p) && k < |p|
    ensures LeadingBackslashes(p + q) == k && (p + q)[k] == p[k]
  {
    LeadingRun(p);
    RunLength(p + q, k);
  }

  /** The run length is determined by where the first non-backslash is. */
  lemma {:induction false} RunLength(s: string, k: nat)
    requires k <= |s|
    requires forall i :: 0 <= i < k ==> s[i] == '\\'
    requires k < |s| ==> s[k] != '\\'
    ensures LeadingBackslashes(s) == k
    decreases k
  {
    if k > 0 {
      RunLength(s[1..], k - 1);
    }
  }

  /** A maximal run of 2n+1 backslashes before a quote loses n + 1 backslashes. */
  lemma OddRunBeforeQuote(n: nat, q: string)
    ensures Unescape(Backslashes(2 * n + 1) + "\"" + q) == Backslashes(n) + "\"" + Unescape(q)
  {
    var s := Backslashes(2 * n + 1) + "\"" + q;
    assert Unescape(s) == Backslashes((2 * n + 1) / 2) + "\"" + Unescape(s[2 * n + 2..]) by {
      RunLength(s, 2 * n + 1);
      UnfoldUnescapeOddRun(s, 2 * n + 1);
    }
    assert (2 * n + 1) / 2 == n;
    assert s[2 * n + 2..] == q;
  }

  /** A character other than a backslash is copied, and the rest rewritten. */
  lemma UnescapeOther(c: char, q: string)
    requires c != '\\'
    ensures Unescape([c] + q) == [c] + Unescape(q)
  {
    assert ([c] + q)[1..] == q;
  }

  /** A run of k backslashes at the start that is not an odd run before a
      quote is copied as it is. */
  lemma UnescapeKeepsRun(k: nat, q: string)
    requires k > 0
    requires q != [] ==> q[0] != '\\'
    requires q != [] && q[0] == '"' ==> k % 2 == 0
    ensures Unescape(Backslashes(k) + q) == Backslashes(k) + Unescape(q)
  {
    var s := Backslashes(k) + q;
    RunLength(s, k);
    assert s[0] == '\\';
    assert s[..k] == Backslashes(k);
    assert s[k..] == q;
  }

  /** A run of 2n backslashes before a quote is an escaped backslash sequence
      followed by a real quote: nothing changes. */
  lemma EvenRunBeforeQuote(n: nat, q: string)
    ensures Unescape(Backslashes(2 * n) + "\"" + q) == Backslashes(2 * n) + "\"" + Unescape(q)
  {
    UnescapeOther('"', q);
    assert "\"" + q == ['"'] + q;
    if n == 0 {
      assert Backslashes(0) + "\"" + q == ['"'] + q;
    } else {
      assert (2 * n) % 2 == 0;
      UnescapeKeepsRun(2 * n, ['"'] + q);
      assert Backslashes(2 * n) + "\"" + q == Backslashes(2 * n) + (['"'] + q);
    }
  }

  /** Backslashes before any character other than a quote are kept. */
  lemma RunBeforeOther(k: nat, c: char, q: string)
    requires c != '"' && c != '\\'
    ensures Unescape(Backslashes(k) + [c] + q) == Backslashes(k) + [c] + Unescape(q)
  {
    UnescapeOther(c, q);
    Associative(Backslashes(k), [c], q);
    Associative(Backslashes(k), [c], Unescape(q));
    if k == 0 {
      assert Backslashes(0) == [];
    } else {
      UnescapeKeepsRun(k, [c] + q);
    }
  }

  /** Backslashes at the end of the text are kept. */
  lemma RunAtEnd(k: nat)
    ensures Unescape(Backslashes(k)) == Backslashes(k)
  {
    var s := Backslashes(k);
    RunLength(s, k);
    if k > 0 {
      assert s[..k] == s && s[k..] == [];
    }
  }

  /** The text with every backslash removed. */
  function DropBackslashes(s: string): (r: string)
    ensures '\\' !in r
  {
    if s == [] then [] else (if s[0] == '\\' then [] else [s[0]]) + DropBackslashes(s[1..])
  }

  lemma {:induction false} DropBackslashesConcat(a: string, b: string)
    ensures DropBackslashes(a + b) == DropBackslashes(a) + DropBackslashes(b)
    decreases |a|
  {
    if a == [] {
      assert a + b == b;
    } else {
      UnfoldDrop(a);
      UnfoldDrop(a + b);
      DropOfConcat(a, b, 1);
      DropBackslashesConcat(a[1..], b);
      Associative(if a[0] == '\\' then [] else [a[0]], DropBackslashes(a[1..]), DropBackslashes(b));
    }
  }

  lemma UnfoldDrop(s: string)
    requires s != []
    ensures DropBackslashes(s) == (if s[0] == '\\' then [] else [s[0]]) + DropBackslashes(s[1..])
  {
  }

  lemma {:induction false} DropBackslashesOfRun(n: nat)
    ensures DropBackslashes(Backslashes(n)) == []
  {
    if n > 0 {
      assert Backslashes(n)[1..] == Backslashes(n - 1);
      DropBackslashesOfRun(n - 1);
    }
  }

  /** Unescape only ever deletes backslashes: every other character, quotes
      included, is kept, in order. */
  lemma {:induction false} UnescapeOnlyDropsBackslashes(s: string)
    ensures DropBackslashes(Unescape(s)) == DropBackslashes(s)
    decreases |s|
  {
    if s != [] {
      var k := LeadingBackslashes(s);
      if s[0] != '\\' {
        UnescapeOnlyDropsBackslashes(s[1..]);
        DropsAtOther(s);
      } else if k < |s| && s[k] == '"' && k % 2 == 1 {
        UnescapeOnlyDropsBackslashes(s[k + 1..]);
        DropsAtOddRun(s, k);
      } else {
        UnescapeOnlyDropsBackslashes(s[k..]);
        DropsAtKeptRun(s, k);
      }
    }
  }

  lemma DropsAtOther(s: string)
    requires s != [] && s[0] != '\\'
    requires DropBackslashes(Unescape(s[1..])) == DropBackslashes(s[1..])
    ensures DropBackslashes(Unescape(s)) == DropBackslashes(s)
  {
    UnfoldUnescapeOther(s);
    DropBackslashesConcat([s[0]], Unescape(s[1..]));
    assert s == [s[0]] + s[1..];
    DropBackslashesConcat([s[0]], s[1..]);
  }

  lemma DropsAtOddRun(s: string, k: nat)
    requires k == LeadingBackslashes(s) && k < |s| && s[k] == '"' && k % 2 == 1
    requires DropBackslashes(Unescape(s[k + 1..])) == DropBackslashes(s[k + 1..])
    ensures DropBackslashes(Unescape(s)) == DropBackslashes(s)
  {
    UnfoldUnescapeOddRun(s, k);
    var q := s[k + 1..];
    SplitOddRun(s, k);
    DropRunThenQuote(k, k / 2, q, Unescape(q));
  }

  lemma SplitOddRun(s: string, k: nat)
    requires k == LeadingBackslashes(s) && k < |s| && s[k] == '"'
    ensures s == Backslashes(k) + ("\"" + s[k + 1..])
  {
    LeadingRun(s);
    SplitAt(s, k);
    assert [s[k]] == "\"";
  }

  lemma SplitAt(s: string, k: nat)
    requires k < |s|
    ensures s == s[..k] + ([s[k]] + s[k + 1..])
  {
    assert s[k..] == [s[k]] + s[k + 1..];
  }

  lemma DropRunThenQuote(k: nat, h: nat, q: string, u: string)
    requires DropBackslashes(u) == DropBackslashes(q)
    ensures DropBackslashes(Backslashes(h) + "\"" + u) == DropBackslashes(Backslashes(k) + ("\"" + q))
  {
    DropRunPrefix(h, "\"" + u);
    DropRunPrefix(k, "\"" + q);
    Associative(Backslashes(h), "\"", u);
    DropQuotePrefix(u);
    DropQuotePrefix(q);
  }

  lemma DropQuotePrefix(u: string)
    ensures DropBackslashes("\"" + u) == "\"" + DropBackslashes(u)
  {
    assert ("\"" + u)[1..] == u;
  }

  /** A run of backslashes in front disappears. */
  lemma DropRunPrefix(k: nat, u: string)
    ensures DropBackslashes(Backslashes(k) + u) == DropBackslashes(u)
  {
    DropBackslashesConcat(Backslashes(k), u);
    DropBackslashesOfRun(k);
  }

  lemma DropsAtKeptRun(s: string, k: nat)
    requires k == LeadingBackslashes(s) && 0 < k
    requires !(k < |s| && s[k] == '"' && k % 2 == 1)
    requires DropBackslashes(Unescape(s[k..])) == DropBackslashes(s[k..])
    ensures DropBackslashes(Unescape(s)) == DropBackslashes(s)
  {
    UnfoldUnescapeKeptRun(s, k);
    LeadingRun(s);
    KeptRunDrops(s, k, Unescape(s[k..]));
  }

  lemma KeptRunDrops(s: string, k: nat, u: string)
    requires k <= |s| && s[..k] == Backslashes(k)
    requires DropBackslashes(u) == DropBackslashes(s[k..])
    ensures DropBackslashes(Backslashes(k) + u) == DropBackslashes(s)
  {
    DropRunPrefix(k, u);
    assert s == Backslashes(k) + s[k..];
    DropRunPrefix(k, s[k..]);
  }

  // ---------------------------------------------------------------------------
  // The pattern as a regular-expression engine runs it: try a match at each
  // position, from left to right; after a replacement carry on behind the
  // match. The lookbehind `(?<!\\)` refuses a position right after a
  // backslash of the original text.
  // ---------------------------------------------------------------------------

  /** The backtracking match of `((?:\\\\)*)\\"` from position 0, after
      group 1 has taken `s[..j]`: the greedy loop tries one more `\\\\` first
      and falls back to ending group 1 at `j` when that fails. On success the
      result is where group 1 ends; the escaped quote follows it. */
  function GroupEnd(s: string, j: nat): (e: Option<nat>)
    requires j <= |s|
    ensures e.Some? ==> j <= e.value && e.value + 2 <= |s|
    decreases |s| - j
  {
    if j + 2 <= |s| && s[j] == '\\' && s[j + 1] == '\\' && GroupEnd(s, j + 2).Some? then
      GroupEnd(s, j + 2)
    else if j + 2 <= |s| && s[j] == '\\' && s[j + 1] == '"' then
      Some(j)
    else
      None
  }

  /** `str::replace` of every `\\\\` by `\\` (left to right, not overlapping). */
  function HalvePairs(g: string): string
    decreases |g|
  {
    if |g| >= 2 && g[0] == '\\' && g[1] == '\\' then "\\" + HalvePairs(g[2..])
    else if g == [] then []
    else [g[0]] + HalvePairs(g[1..])
  }

  /** What the global replacement of the pattern produces on the rest `s` of
      the text; `afterBackslash` says whether the character before `s` is a
      backslash, which makes the lookbehind fail. */
  function RegexUnescape(s: string, afterBackslash: bool): string
    decreases |s|
  {
    if s == [] then []
    else if !afterBackslash && GroupEnd(s, 0).Some? then
      var j := GroupEnd(s, 0).value;
      HalvePairs(s[..j]) + "\"" + RegexUnescape(s[j + 2..], false)
    else [s[0]] + RegexUnescape(s[1..], s[0] == '\\')
  }

  lemma {:induction false} HalvePairsOfPairs(n: nat)
    ensures HalvePairs(Backslashes(2 * n)) == Backslashes(n)
  {
    if n > 0 {
      assert Backslashes(2 * n)[2..] == Backslashes(2 * (n - 1));
      HalvePairsOfPairs(n - 1);
      assert "\\" + Backslashes(n - 1) == Backslashes(n);
    }
  }

  /** The pattern matches at the start exactly at an odd run before a quote,
      and group 1 is then the run less one backslash. */
  lemma {:induction false} GroupEndOfRun(s: string, j: nat)
    requires j <= |s| && j % 2 == 0
    requires forall i :: 0 <= i < j ==> s[i] == '\\'
    ensures var k := LeadingBackslashes(s);
      GroupEnd(s, j) == if k < |s| && s[k] == '"' && k % 2 == 1 then Some(k - 1) else None
    decreases |s| - j
  {
    if j + 2 <= |s| && s[j] == '\\' && s[j + 1] == '\\' {
      GroupEndOfRun(s, j + 2);
    } else if j + 1 <= |s| && s[j] == '\\' {
      RunLength(s, j + 1);
    } else {
      RunLength(s, j);
    }
  }

  /** Inside a run of backslashes the lookbehind fails, so the run is copied. */
  lemma {:induction false} RunCopied(s: string, i: nat, k: nat)
    requires i <= k <= |s|
    requires forall j :: 0 <= j < k ==> s[j] == '\\'
    ensures RegexUnescape(s[i..], true) == s[i..k] + RegexUnescape(s[k..], true)
    decreases k - i
  {
    if i == k {
      assert s[i..k] == [];
    } else {
      RunCopied(s, i + 1, k);
      CopyAfterBackslash(s, i);
      assert s[i..k] == [s[i]] + s[i + 1..k];
      Associative([s[i]], s[i + 1..k], RegexUnescape(s[k..], true));
    }
  }

  lemma CopyAfterBackslash(s: string, i: nat)
    requires i < |s| && s[i] == '\\'
    ensures RegexUnescape(s[i..], true) == [s[i]] + RegexUnescape(s[i + 1..], true)
  {
    assert s[i..][1..] == s[i + 1..];
  }

  // Single unfoldings of the two definitions, each proved in a small context.

  lemma UnfoldUnescapeKeptRun(s: string, k: nat)
    requires k == LeadingBackslashes(s) && 0 < k
    requires !(k < |s| && s[k] == '"' && k % 2 == 1)
    ensures Unescape(s) == s[..k] + Unescape(s[k..])
  {
  }

  lemma UnfoldUnescapeOddRun(s: string, k: nat)
    requires k == LeadingBackslashes(s) && k < |s| && s[k] == '"' && k % 2 == 1
    ensures Unescape(s) == Backslashes(k / 2) + "\"" + Unescape(s[k + 1..])
  {
    assert s[0] == '\\';
    var t := s[k + 1..];
    assert Unescape(s) == Backslashes(k / 2) + "\"" + Unescape(t);
  }

  lemma UnfoldUnescapeOther(s: string)
    requires s != [] && s[0] != '\\'
    ensures Unescape(s) == [s[0]] + Unescape(s[1..])
  {
  }

  lemma UnfoldRegexMatch(s: string)
    requires s != [] && GroupEnd(s, 0).Some?
    ensures var j := GroupEnd(s, 0).value;
      RegexUnescape(s, false) == HalvePairs(s[..j]) + "\"" + RegexUnescape(s[j + 2..], false)
  {
  }

  lemma UnfoldRegexCopy(s: string, afterBackslash: bool)
    requires s != [] && (afterBackslash || GroupEnd(s, 0).None?)
    ensures RegexUnescape(s, afterBackslash) == [s[0]] + RegexUnescape(s[1..], s[0] == '\\')
  {
  }

  lemma AgreeAtOther(s: string)
    requires s != [] && s[0] != '\\'
    requires Unescape(s[1..]) == RegexUnescape(s[1..], false)
    ensures Unescape(s) == RegexUnescape(s, false)
  {
    GroupEndOfRun(s, 0);
    UnfoldUnescapeOther(s);
    UnfoldRegexCopy(s, false);
  }

  lemma AgreeAtOddRun(s: string, k: nat)
    requires k == LeadingBackslashes(s) && k < |s| && s[k] == '"' && k % 2 == 1
    requires Unescape(s[k + 1..]) == RegexUnescape(s[k + 1..], false)
    ensures Unescape(s) == RegexUnescape(s, false)
  {
    UnfoldUnescapeOddRun(s, k);
    RegexAtOddRun(s, k);
  }

  /** The pattern matches the odd run and its quote, and halves the pairs in front. */
  lemma RegexAtOddRun(s: string, k: nat)
    requires k == LeadingBackslashes(s) && k < |s| && s[k] == '"' && k % 2 == 1
    ensures RegexUnescape(s, false) == Backslashes(k / 2) + "\"" + RegexUnescape(s[k + 1..], false)
  {
    GroupEndOfRun(s, 0);
    UnfoldRegexMatch(s);
    PairsOfOddRun(s, k);
  }

  lemma PairsOfOddRun(s: string, k: nat)
    requires k == LeadingBackslashes(s) && k < |s| && k % 2 == 1
    ensures HalvePairs(s[..k - 1]) == Backslashes(k / 2)
  {
    var m, p := k / 2, s[..k - 1];
    assert 2 * m == k - 1;
    assert forall i :: 0 <= i < |p| ==> p[i] == s[i];
    assert p == Backslashes(2 * m);
    HalvePairsOfPairs(m);
  }

  lemma RegexAtKeptRun(s: string, k: nat)
    requires k == LeadingBackslashes(s) && 0 < k
    requires !(k < |s| && s[k] == '"' && k % 2 == 1)
    ensures RegexUnescape(s, false) == s[..k] + RegexUnescape(s[k..], true)
  {
    RegexAtRunStart(s, k);
    RegexInsideRun(s, k);
    assert s[..k] == [s[0]] + s[1..k];
    Associative([s[0]], s[1..k], RegexUnescape(s[k..], true));
  }

  lemma RegexAtRunStart(s: string, k: nat)
    requires k == LeadingBackslashes(s) && 0 < k
    requires !(k < |s| && s[k] == '"' && k % 2 == 1)
    ensures RegexUnescape(s, false) == [s[0]] + RegexUnescape(s[1..], true)
  {
    GroupEndOfRun(s, 0);
    UnfoldRegexCopy(s, false);
  }

  lemma RegexInsideRun(s: string, k: nat)
    requires k == LeadingBackslashes(s) && 0 < k
    ensures RegexUnescape(s[1..], true) == s[1..k] + RegexUnescape(s[k..], true)
  {
    LeadingRun(s);
    RunCopied(s, 1, k);
  }

  lemma AgreeAtKeptRun(s: string, k: nat)
    requires k == LeadingBackslashes(s) && 0 < k
    requires !(k < |s| && s[k] == '"' && k % 2 == 1)
    requires k < |s| ==> Unescape(s[k + 1..]) == RegexUnescape(s[k + 1..], false)
    ensures Unescape(s) == RegexUnescape(s, false)
  {
    UnfoldUnescapeKeptRun(s, k);
    RegexAtKeptRun(s, k);
    var t := s[k..];
    if k < |s| {
      assert t[1..] == s[k + 1..];
      UnfoldRegexCopy(t, true);
      UnfoldUnescapeOther(t);
    } else {
      assert t == [];
    }
  }

  /** The run-by-run scanner and the position-by-position regex replacement agree. */
  lemma {:induction false} UnescapeIsRegexReplacement(s: string)
    ensures Unescape(s) == RegexUnescape(s, false)
    decreases |s|
  {
    if s != [] {
      var k := LeadingBackslashes(s);
      if s[0] != '\\' {
        UnescapeIsRegexReplacement(s[1..]);
        AgreeAtOther(s);
      } else if k < |s| && s[k] == '"' && k % 2 == 1 {
        UnescapeIsRegexReplacement(s[k + 1..]);
        AgreeAtOddRun(s, k);
      } else {
        if k < |s| {
          UnescapeIsRegexReplacement(s[k + 1..]);
        }
        AgreeAtKeptRun(s, k);
      }
    }
  }

  // ---------------------------------------------------------------------------
  // Unescape on a text given as pieces: plain runs without backslashes, and
  // backslash runs each closed by a quote.
  // ---------------------------------------------------------------------------

  /** A text without backslashes. */
  type PlainText = s: string | '\\' !in s

  /** A plain run, or `n` backslashes followed by a quote. */
  datatype Piece = Text(t: PlainText) | Run(n: nat)

  function PieceText(p: Piece): string
  {
    match p
    case Text(t) => t
    case Run(n) => Backslashes(n) + "\""
  }

  function Render(ps: seq<Piece>): string
  {
    if ps == [] then "" else PieceText(ps[0]) + Render(ps[1..])
  }

  /** What the unescaping regex makes of one piece: an odd run before its
      quote loses half its backslashes and the escaping one, an even run
      stays. */
  function PieceUnescaped(p: Piece): string
  {
    match p
    case Text(t) => t
    case Run(n) => (if n % 2 == 1 then Backslashes(n / 2) else Backslashes(n)) + "\""
  }

  function RenderUnescaped(ps: seq<Piece>): string
  {
    if ps == [] then "" else PieceUnescaped(ps[0]) + RenderUnescaped(ps[1..])
  }

  lemma UnescapePiece(p: Piece)
    ensures Unescape(PieceText(p)) == PieceUnescaped(p)
  {
    match p
    case Text(t) => UnescapeWithoutBackslashes(t);
    case Run(n) =>
      assert Unescape("") == "";
      assert Backslashes(n) + "\"" + "" == Backslashes(n) + "\"";
      if n % 2 == 1 {
        OddRunBeforeQuote(n / 2, "");
        assert 2 * (n / 2) + 1 == n;
      } else {
        EvenRunBeforeQuote(n / 2, "");
        assert 2 * (n / 2) == n;
      }
  }

  /** Every backslash run of a text made of pieces ends inside its piece, so
      Unescape works piece by piece. */
  lemma {:induction false} UnescapeRender(ps: seq<Piece>)
    ensures Unescape(Render(ps)) == RenderUnescaped(ps)
  {
    if ps != [] {
      var h := PieceText(ps[0]);
      assert h == [] || h[|h| - 1] != '\\';
      UnescapeConcat(h, Render(ps[1..]));
      UnescapePiece(ps[0]);
      UnescapeRender(ps[1..]);
    }
  }

  /** A text made of pieces never ends in a backslash. */
  lemma {:induction false} RenderEnd(ps: seq<Piece>)
    ensures var r := Render(ps); r == [] || r[|r| - 1] != '\\'
  {
    if ps != [] {
      RenderEnd(ps[1..]);
      var h := PieceText(ps[0]);
      assert h == [] || h[|h| - 1] != '\\';
    }
  }

  /** A document between braces whose inside is made of pieces: the quote
      stripping does nothing and the inside is unescaped piece by piece. */
  lemma RewriteBraced(ps: seq<Piece>)
    ensures Rewrite("{" + Render(ps) + "}") == "{" + RenderUnescaped(ps) + "}"
  {
    var s := "{" + Render(ps) + "}";
    assert s[0] == '{' && s[|s| - 1] == '}';
    assert StripQuotes(s) == s;
    RenderEnd(ps);
    UnescapeConcat(Render(ps), "}");
    UnescapeConcat("{", Render(ps) + "}");
    UnescapeWithoutBackslashes("{");
    UnescapeWithoutBackslashes("}");
    UnescapeRender(ps);
    Associative("{", Render(ps), "}");
    Associative("{", RenderUnescaped(ps), "}");
  }
}
