/** Stringifying values at dotted paths (`sort_by_period_count`, `edit_val`
    and `stringify`). */
module PathEncoder {
  import opened Results
  import opened Json
  import opened Serializer

  // ---------------------------------------------------------------------------
  // Paths.
  // ---------------------------------------------------------------------------

  /** The number of `.` characters in a path. */
  function Dots(p: string): nat
    decreases |p|
  {
    if p == [] then 0 else (if p[0] == '.' then 1 else 0) + Dots(p[1..])
  }

  /** `split('.')`: the pieces between the dots; there is always at least one,
      possibly empty. */
  function Split(p: string): (r: seq<string>)
    ensures |r| == Dots(p) + 1
    ensures forall i :: 0 <= i < |r| ==> '.' !in r[i]
    decreases |p|
  {
    if p == [] then [""]
    else
      var rest := Split(p[1..]);
      if p[0] == '.' then [""] + rest else [[p[0]] + rest[0]] + rest[1..]
  }

  lemma SplitSingle(c: char)
    requires c != '.'
    ensures Split([c]) == [[c]]
  {
    assert [c][1..] == [];
    var rest := Split([]);
    assert rest == [""];
    assert [c] + rest[0] == [c] && rest[1..] == [];
  }

  lemma SplitDot(p: string)
    ensures Split(['.'] + p) == [""] + Split(p)
  {
    assert (['.'] + p)[1..] == p;
  }

  lemma SplitCons(c: char, p: string)
    requires c != '.'
    ensures Split([c] + p) == [[c] + Split(p)[0]] + Split(p)[1..]
  {
    assert ([c] + p)[1..] == p;
  }

  /** The path `a.b` has the two segments `a` and `b`. */
  lemma SplitTwo()
    ensures Split("a.b") == ["a", "b"]
  {
    SplitSingle('b');
    SplitDot("b");
    SplitCons('a', ".b");
    assert "a.b" == ['a'] + ".b" && ".b" == ['.'] + "b" && "b" == ['b'];
    assert Split(".b") == ["", "b"];
    assert ['a'] + Split(".b")[0] == "a" && Split(".b")[1..] == ["b"];
  }

  /** The pieces put back together with `.` between them. */
  function Join(segs: seq<string>): string
    requires |segs| >= 1
  {
    if |segs| == 1 then segs[0] else segs[0] + "." + Join(segs[1..])
  }

  /** Splitting loses nothing: joining the pieces gives the path back. */
  lemma {:induction false} JoinSplit(p: string)
    ensures Join(Split(p)) == p
    decreases |p|
  {
    if p != [] {
      JoinSplit(p[1..]);
      var rest := Split(p[1..]);
      if p[0] == '.' {
        assert ([""] + rest)[1..] == rest;
        assert p == "" + "." + p[1..];
      } else if |rest| == 1 {
        assert p == [p[0]] + p[1..];
      } else {
        var r := [[p[0]] + rest[0]] + rest[1..];
        assert r[1..] == rest[1..];
        assert Join(rest) == rest[0] + "." + Join(rest[1..]);
        assert p == [p[0]] + p[1..];
      }
    }
  }

  // ---------------------------------------------------------------------------
  // Sorting by dot count: a stable sort, deepest paths first.
  // ---------------------------------------------------------------------------

  /** Inserts `x` into a sorted list after every path with at least as many
      dots, so that it lands behind the paths with its own count. */
  function InsertByDots(x: string, s: seq<string>): (r: seq<string>)
    ensures |r| == |s| + 1
    decreases |s|
  {
    if s == [] then [x]
    else if Dots(s[|s| - 1]) < Dots(x) then InsertByDots(x, s[..|s| - 1]) + [s[|s| - 1]]
    else s + [x]
  }

  /** The list `sort_by` produces under the comparator `b.dots.cmp(a.dots)`:
      an insertion sort, which is stable like `slice::sort_by`. */
  function SortedByDots(s: seq<string>): (r: seq<string>)
    ensures |r| == |s|
    decreases |s|
  {
    if s == [] then [] else InsertByDots(s[|s| - 1], SortedByDots(s[..|s| - 1]))
  }

  /** Deeper paths come first. */
  predicate NonIncreasing(s: seq<string>)
  {
    forall i, j :: 0 <= i < j < |s| ==> Dots(s[i]) >= Dots(s[j])
  }

  /** The paths with exactly `d` dots, in order. */
  function WithDots(s: seq<string>, d: nat): seq<string>
    decreases |s|
  {
    if s == [] then []
    else WithDots(s[..|s| - 1], d) + (if Dots(s[|s| - 1]) == d then [s[|s| - 1]] else [])
  }

  lemma {:induction false} InsertByDotsPermutes(x: string, s: seq<string>)
    ensures multiset(InsertByDots(x, s)) == multiset(s) + multiset{x}
    decreases |s|
  {
    if s != [] {
      var init, last := s[..|s| - 1], s[|s| - 1];
      assert s == init + [last];
      if Dots(last) < Dots(x) {
        InsertByDotsPermutes(x, init);
      }
    }
  }

  lemma {:induction false} InsertByDotsOrdered(x: string, s: seq<string>)
    requires NonIncreasing(s)
    ensures NonIncreasing(InsertByDots(x, s))
    decreases |s|
  {
    if s != [] {
      var init, last := s[..|s| - 1], s[|s| - 1];
      assert forall k :: 0 <= k < |init| ==> init[k] == s[k];
      if Dots(last) < Dots(x) {
        InsertByDotsOrdered(x, init);
        InsertByDotsAtLeast(x, init, Dots(last));
        AppendNonIncreasing(InsertByDots(x, init), last);
      } else {
        AppendNonIncreasing(s, x);
      }
    }
  }

  /** Every path in `s` has at least `d` dots. */
  predicate AtLeast(s: seq<string>, d: nat)
  {
    forall i :: 0 <= i < |s| ==> Dots(s[i]) >= d
  }

  lemma {:induction false} InsertByDotsAtLeast(x: string, s: seq<string>, d: nat)
    requires AtLeast(s, d) && Dots(x) >= d
    ensures AtLeast(InsertByDots(x, s), d)
    decreases |s|
  {
    if s != [] {
      var init := s[..|s| - 1];
      assert forall k :: 0 <= k < |init| ==> init[k] == s[k];
      if Dots(s[|s| - 1]) < Dots(x) {
        InsertByDotsAtLeast(x, init, d);
      }
    }
  }

  lemma AppendNonIncreasing(r: seq<string>, y: string)
    requires NonIncreasing(r) && AtLeast(r, Dots(y))
    ensures NonIncreasing(r + [y])
  {
  }

  lemma {:induction false} InsertByDotsStable(x: string, s: seq<string>, d: nat)
    ensures WithDots(InsertByDots(x, s), d) == WithDots(s, d) + (if Dots(x) == d then [x] else [])
    decreases |s|
  {
    if s == [] {
      WithDotsSnoc([], x, d);
      assert [] + [x] == [x];
    } else {
      var init, last := s[..|s| - 1], s[|s| - 1];
      if Dots(last) < Dots(x) {
        InsertByDotsStable(x, init, d);
        var r := InsertByDots(x, init);
        WithDotsSnoc(r, last, d);
        assert WithDots(s, d) == WithDots(init, d) + (if Dots(last) == d then [last] else []);
        if Dots(x) == d {
          assert WithDots(s, d) == WithDots(init, d);
        } else {
          assert WithDots(r, d) == WithDots(init, d);
        }
      } else {
        WithDotsSnoc(s, x, d);
      }
    }
  }

  /** One more path at the end adds it to its dot class. */
  lemma WithDotsSnoc(s: seq<string>, y: string, d: nat)
    ensures WithDots(s + [y], d) == WithDots(s, d) + (if Dots(y) == d then [y] else [])
  {
    assert (s + [y])[..|s|] == s;
  }

  /** The sorted list holds exactly the input paths. */
  lemma {:induction false} SortedPermutes(s: seq<string>)
    ensures multiset(SortedByDots(s)) == multiset(s)
    decreases |s|
  {
    if s != [] {
      var init, last := s[..|s| - 1], s[|s| - 1];
      var r := SortedByDots(init);
      SortedPermutes(init);
      InsertByDotsPermutes(last, r);
      assert multiset(s) == multiset(init) + multiset{last} by {
        assert s == init + [last];
      }
    }
  }

  /** The sorted list has the deepest paths first. */
  lemma {:induction false} SortedOrdered(s: seq<string>)
    ensures NonIncreasing(SortedByDots(s))
    decreases |s|
  {
    if s != [] {
      SortedOrdered(s[..|s| - 1]);
      InsertByDotsOrdered(s[|s| - 1], SortedByDots(s[..|s| - 1]));
    }
  }

  /** Paths with the same dot count keep their input order. */
  lemma {:induction false} SortedStable(s: seq<string>, d: nat)
    ensures WithDots(SortedByDots(s), d) == WithDots(s, d)
    decreases |s|
  {
    if s != [] {
      SortedStable(s[..|s| - 1], d);
      InsertByDotsStable(s[|s| - 1], SortedByDots(s[..|s| - 1]), d);
    }
  }

  /** The paths of the sort test, deepest first and otherwise in input order. */
  lemma SortExample(s: seq<string>)
    requires s == ["a.c", "a.b.c.d", "a", "b.c.d"]
    ensures SortedByDots(s) == ["a.b.c.d", "b.c.d", "a.c", "a"]
  {
    DotsOfTestPaths();
    SortFour("a.c", "a.b.c.d", "a", "b.c.d");
  }

  lemma DotsOfTestPaths()
    ensures Dots("a") == 0 && Dots("a.c") == 1 && Dots("b.c.d") == 2 && Dots("a.b.c.d") == 3
  {
  }

  /** Four paths whose dot counts are ordered as in the sort test. */
  lemma SortFour(a: string, b: string, c: string, d: string)
    requires Dots(c) < Dots(a) < Dots(d) < Dots(b)
    ensures SortedByDots([a, b, c, d]) == [b, d, a, c]
  {
    assert [a, b, c, d][..3] == [a, b, c];
    SortThree(a, b, c);
    InsertBehindFirst(d, b, a, c);
  }

  lemma SortThree(a: string, b: string, c: string)
    requires Dots(c) <= Dots(a) < Dots(b)
    ensures SortedByDots([a, b, c]) == [b, a, c]
  {
    assert [a, b, c][..2] == [a, b];
    SortTwo(a, b);
    assert InsertByDots(c, [b, a]) == [b, a, c];
  }

  lemma SortTwo(a: string, b: string)
    requires Dots(a) < Dots(b)
    ensures SortedByDots([a, b]) == [b, a]
  {
    assert [a, b][..1] == [a] && [a][..0] == [];
    assert SortedByDots([a]) == [a];
    assert InsertByDots(b, [a]) == InsertByDots(b, []) + [a];
  }

  /** A path moves past the two shallower paths at the end and stops behind the first. */
  lemma InsertBehindFirst(x: string, p: string, q: string, r: string)
    requires Dots(r) < Dots(x) && Dots(q) < Dots(x) <= Dots(p)
    ensures InsertByDots(x, [p, q, r]) == [p, x, q, r]
  {
    assert [p, q, r][..2] == [p, q] && [p, q][..1] == [p];
    assert InsertByDots(x, [p]) == [p, x];
    assert InsertByDots(x, [p, q]) == InsertByDots(x, [p]) + [q];
  }

  /** `sort_by_period_count`, in place on the buffer. */
  method SortByPeriodCount(a: array<string>)
    modifies a
    ensures a[..] == SortedByDots(old(a[..]))
  {
    ghost var input := a[..];
    var i := 0;
    while i < a.Length
      invariant 0 <= i <= a.Length
      invariant a[..i] == SortedByDots(input[..i])
      invariant a[i..] == input[i..]
    {
      ghost var before := a[..];
      InsertLast(a, i);
      assert input[..i + 1][..i] == input[..i];
      assert a[i + 1..] == before[i + 1..];
      i := i + 1;
    }
    assert a[..] == a[..a.Length];
    assert input == input[..a.Length];
  }

  /** Moves `a[i]` left into the sorted prefix `a[..i]`. */
  method InsertLast(a: array<string>, i: nat)
    requires i < a.Length
    modifies a
    ensures a[..i + 1] == InsertByDots(old(a[i]), old(a[..i]))
    ensures a[i + 1..] == old(a[i + 1..])
  {
    var x := a[i];
    ghost var orig := a[..];
    var j := ShiftRight(a, i, x);
    ShiftStop(x, orig[..i], j);
    a[j] := x;
    Placed(orig, a[..], i, j, x);
  }

  /** Shifts the paths of `a[..i]` with fewer dots than `x` one place to the
      right, from the right end, and returns the slot left free. Afterwards
      inserting `x` into the prefix in front of the slot is all that is left. */
  method ShiftRight(a: array<string>, i: nat, x: string) returns (j: nat)
    requires i < a.Length
    modifies a
    ensures j <= i
    ensures a[..] == old(a[..])[..j + 1] + old(a[..])[j..i] + old(a[..])[i + 1..]
    ensures j > 0 ==> Dots(old(a[..])[..i][j - 1]) >= Dots(x)
    ensures InsertByDots(x, old(a[..])[..i]) == InsertByDots(x, old(a[..])[..i][..j]) + old(a[..])[..i][j..i]
  {
    ghost var orig := a[..];
    ghost var sorted := orig[..i];
    j := i;
    assert sorted[..j] == sorted && sorted[j..i] == [];
    assert a[..] == orig[..j + 1] + orig[j..i] + orig[i + 1..];
    while j > 0 && Dots(a[j - 1]) < Dots(x)
      invariant 0 <= j <= i
      invariant a[..] == orig[..j + 1] + orig[j..i] + orig[i + 1..]
      invariant InsertByDots(x, sorted) == InsertByDots(x, sorted[..j]) + sorted[j..i]
    {
      ShiftStep(x, sorted, j, i);
      ShiftOne(orig, a[..], i, j);
      a[j] := a[j - 1];
      j := j - 1;
    }
    assert j > 0 ==> a[j - 1] == orig[j - 1];
  }

  /** One step of the shift: copying the path left of the slot into it. */
  lemma ShiftOne(orig: seq<string>, b: seq<string>, i: nat, j: nat)
    requires 0 < j <= i < |orig| && b == orig[..j + 1] + orig[j..i] + orig[i + 1..]
    ensures b[j - 1] == orig[j - 1]
    ensures b[j := b[j - 1]] == orig[..j] + orig[j - 1..i] + orig[i + 1..]
  {
  }

  /** Dropping `x` into the slot gives the prefix with `x` inserted. */
  lemma Placed(orig: seq<string>, b: seq<string>, i: nat, j: nat, x: string)
    requires j <= i < |orig| && |b| == |orig|
    requires b == (orig[..j + 1] + orig[j..i] + orig[i + 1..])[j := x]
    ensures b[..i + 1] == orig[..i][..j] + [x] + orig[..i][j..i]
    ensures b[i + 1..] == orig[i + 1..]
  {
  }

  /** Moving `x` past a path with fewer dots. */
  lemma ShiftStep(x: string, s: seq<string>, j: nat, i: nat)
    requires 0 < j <= i == |s| && Dots(s[j - 1]) < Dots(x)
    ensures InsertByDots(x, s[..j]) + s[j..i] == InsertByDots(x, s[..j - 1]) + s[j - 1..i]
  {
    assert s[..j][..j - 1] == s[..j - 1];
    assert s[j - 1..i] == [s[j - 1]] + s[j..i];
  }

  /** `x` stops behind the first path, from the right, with at least as many dots. */
  lemma ShiftStop(x: string, s: seq<string>, j: nat)
    requires j <= |s|
    requires j > 0 ==> Dots(s[j - 1]) >= Dots(x)
    ensures InsertByDots(x, s[..j]) == s[..j] + [x]
  {
    if j > 0 {
      assert s[..j][..j - 1] == s[..j - 1];
    }
  }

  // ---------------------------------------------------------------------------
  // Editing at a path, as `edit_val` is written.
  // ---------------------------------------------------------------------------

  /** `edit_val`. No segment: nothing to do. One segment: the object's value
      under the key is replaced by its compact text (a missing key reaches
      `unwrap` and panics; a non-object is an error). More segments: it
      descends under the first key and calls itself with the same segments,
      writing the edited child back on success. */
  function EditVal(v: Value, segs: seq<string>): (r: Result<Value>)
    ensures |segs| == 1 && r.Ok? ==> r.value.Object? && v.Object? && Keys(r.value.members) == Keys(v.members)
    decreases Size(v)
  {
    if |segs| == 0 then Ok(v)
    else if |segs| == 1 then
      (match v
       case Object(ms) =>
         (match Get(ms, segs[0])
          case Some(prev) =>
            InsertKeepsKeys(ms, segs[0], String(Serialize(prev)));
            Ok(Object(Insert(ms, segs[0], String(Serialize(prev)))))
          case None => Panic)
       case _ => Err(JSONStringify))
    else
      match v
      case Object(ms) =>
        (match Get(ms, segs[0])
         case Some(child) =>
           GetSmaller(ms, segs[0]);
           (match EditVal(child, segs)
            case Ok(c) => Ok(Object(Insert(ms, segs[0], c)))
            case Err(e) => Err(e)
            case Panic => Panic)
         case None => Err(JSONStringify))
      case _ => Err(JSONStringify)
  }

  /** A single key present in an object: its value, and nothing else, becomes
      the compact text of the old value, in the same position. */
  lemma EditValSingleKey(ms: seq<Member>, k: string)
    requires k in Keys(ms)
    ensures var r := EditVal(Object(ms), [k]);
      && r.Ok? && r.value.Object?
      && |r.value.members| == |ms|
      && Keys(r.value.members) == Keys(ms)
      && Get(r.value.members, k) == Some(String(Serialize(Get(ms, k).value)))
      && forall j :: 0 <= j < |ms| && ms[j].key != k ==> r.value.members[j] == ms[j]
  {
    var y := String(Serialize(Get(ms, k).value));
    InsertKeepsKeys(ms, k, y);
    assert EditVal(Object(ms), [k]) == Ok(Object(Insert(ms, k, y)));
  }

  /** A single key missing from an object reaches the `unwrap`. */
  lemma EditValMissingKey(ms: seq<Member>, k: string)
    requires k !in Keys(ms)
    ensures EditVal(Object(ms), [k]) == Panic
  {
  }

  /** A single key on anything but an object is an error. */
  lemma EditValNotObject(v: Value, k: string)
    requires !v.Object?
    ensures EditVal(v, [k]) == Err(JSONStringify)
  {
  }

  /** With two or more segments the descent never reaches the one-segment
      case, so it ends where a lookup fails: always an error. */
  lemma {:induction false} EditValMultiSegmentFails(v: Value, segs: seq<string>)
    requires |segs| >= 2
    ensures EditVal(v, segs) == Err(JSONStringify)
    decreases Size(v)
  {
    match v
    case Object(ms) =>
      if Get(ms, segs[0]).Some? {
        GetSmaller(ms, segs[0]);
        EditValMultiSegmentFails(Get(ms, segs[0]).value, segs);
      }
    case _ =>
  }

  /** The nested object ` {"a": {"b": 1}} ` with path `a.b`: as written, an
      error rather than the edit. */
  lemma NestedPathExample()
    ensures EditVal(Object([Member("a", Object([Member("b", Number(1))]))]), Split("a.b")) ==
      Err(JSONStringify)
  {
    assert |Split("a.b")| == 2;
    EditValMultiSegmentFails(Object([Member("a", Object([Member("b", Number(1))]))]), Split("a.b"));
  }

  // ---------------------------------------------------------------------------
  // Editing at a path, as intended.
  // ---------------------------------------------------------------------------

  /** The value reached by following the keys of `segs` from `v`. */
  function At(v: Value, segs: seq<string>): Option<Value>
    decreases |segs|
  {
    if segs == [] then Some(v)
    else
      match v
      case Object(ms) =>
        (match Get(ms, segs[0])
         case Some(c) => At(c, segs[1..])
         case None => None)
      case _ => None
  }

  /** `edit_val` with the descent on the remaining segments and a missing key
      reported as an error at every level: the value at the path becomes its
      compact text. */
  function EditPath(v: Value, segs: seq<string>): (r: Result<Value>)
    decreases |segs|
  {
    if |segs| == 0 then Ok(v)
    else
      match v
      case Object(ms) =>
        (match Get(ms, segs[0])
         case Some(child) =>
           if |segs| == 1 then Ok(Object(Insert(ms, segs[0], String(Serialize(child)))))
           else
             (match EditPath(child, segs[1..])
              case Ok(c) => Ok(Object(Insert(ms, segs[0], c)))
              case Err(e) => Err(e)
              case Panic => Panic)
         case None => Err(JSONStringify))
      case _ => Err(JSONStringify)
  }

  /** The edit succeeds exactly when the path leads somewhere; then the value
      there is the compact text of what was there, the keys of the top object
      are kept, and otherwise the outcome is the stringify error. */
  lemma {:induction false} EditPathAt(v: Value, segs: seq<string>)
    requires |segs| >= 1
    ensures EditPath(v, segs).Ok? <==> At(v, segs).Some?
    ensures EditPath(v, segs).Ok? ==>
      At(EditPath(v, segs).value, segs) == Some(String(Serialize(At(v, segs).value)))
    ensures EditPath(v, segs).Ok? ==>
      EditPath(v, segs).value.Object? && Keys(EditPath(v, segs).value.members) == Keys(v.members)
    ensures !EditPath(v, segs).Ok? ==> EditPath(v, segs) == Err(JSONStringify)
    ensures EditPath(v, segs).Ok? ==> forall q :: !(q <= segs) && !(segs <= q) ==>
      At(EditPath(v, segs).value, q) == At(v, q)
    decreases |segs|
  {
    if EditPath(v, segs).Ok? {
      forall q | !(q <= segs) && !(segs <= q)
        ensures At(EditPath(v, segs).value, q) == At(v, q)
      {
        EditPathFrame(v, segs, q);
      }
    }
    match v
    case Object(ms) =>
      var k := segs[0];
      if Get(ms, k).Some? {
        var child := Get(ms, k).value;
        if |segs| == 1 {
          EditAtLastSegment(ms, segs, child);
        } else {
          EditPathAt(child, segs[1..]);
          EditBelow(ms, segs, child);
        }
      }
    case _ =>
  }

  /** A path that leaves `segs` at some key, neither above nor below it,
      reaches the same value before and after the edit. */
  lemma {:induction false} EditPathFrame(v: Value, segs: seq<string>, q: seq<string>)
    requires |segs| >= 1 && EditPath(v, segs).Ok?
    requires !(q <= segs) && !(segs <= q)
    ensures At(EditPath(v, segs).value, q) == At(v, q)
    decreases |segs|
  {
    var ms := v.members;
    var k := segs[0];
    var child := Get(ms, k).value;
    var c := if |segs| == 1 then String(Serialize(child)) else EditPath(child, segs[1..]).value;
    assert EditPath(v, segs) == Ok(Object(Insert(ms, k, c)));
    if q[0] != k {
      GetInsertOther(ms, k, c, q[0]);
    } else if |segs| >= 2 {
      PrefixTail(q, segs);
      PrefixTail(segs, q);
      EditPathFrame(child, segs[1..], q[1..]);
    }
  }

  /** Two paths with the same first key: one is a prefix of the other exactly
      when their tails are. */
  lemma PrefixTail(p: seq<string>, q: seq<string>)
    requires p != [] && q != [] && p[0] == q[0]
    ensures p <= q <==> p[1..] <= q[1..]
  {
    if p[1..] <= q[1..] {
      assert p == [p[0]] + p[1..] && q == [q[0]] + q[1..];
      assert q[..|p|] == [q[0]] + q[1..][..|p| - 1];
    }
  }

  lemma EditAtLastSegment(ms: seq<Member>, segs: seq<string>, child: Value)
    requires |segs| == 1 && Get(ms, segs[0]) == Some(child)
    ensures EditPath(Object(ms), segs) == Ok(Object(Insert(ms, segs[0], String(Serialize(child)))))
    ensures At(Object(ms), segs) == Some(child)
    ensures At(Object(Insert(ms, segs[0], String(Serialize(child)))), segs) == Some(String(Serialize(child)))
    ensures Keys(Insert(ms, segs[0], String(Serialize(child)))) == Keys(ms)
  {
    InsertKeepsKeys(ms, segs[0], String(Serialize(child)));
    assert segs[1..] == [];
  }

  lemma EditBelow(ms: seq<Member>, segs: seq<string>, child: Value)
    requires |segs| >= 2 && Get(ms, segs[0]) == Some(child)
    requires EditPath(child, segs[1..]).Ok? <==> At(child, segs[1..]).Some?
    requires EditPath(child, segs[1..]).Ok? ==>
      At(EditPath(child, segs[1..]).value, segs[1..]) == Some(String(Serialize(At(child, segs[1..]).value)))
    requires !EditPath(child, segs[1..]).Ok? ==> EditPath(child, segs[1..]) == Err(JSONStringify)
    ensures EditPath(Object(ms), segs).Ok? <==> At(Object(ms), segs).Some?
    ensures EditPath(Object(ms), segs).Ok? ==>
      At(EditPath(Object(ms), segs).value, segs) == Some(String(Serialize(At(Object(ms), segs).value)))
    ensures EditPath(Object(ms), segs).Ok? ==>
      EditPath(Object(ms), segs).value.Object? && Keys(EditPath(Object(ms), segs).value.members) == Keys(ms)
    ensures !EditPath(Object(ms), segs).Ok? ==> EditPath(Object(ms), segs) == Err(JSONStringify)
  {
    var e := EditPath(child, segs[1..]);
    if e.Ok? {
      InsertKeepsKeys(ms, segs[0], e.value);
    }
  }

  /** Where the written edit does not panic and has at most one segment, the
      intended edit agrees with it; where it panics, the intended edit is the
      stringify error. */
  lemma EditPathAgrees(v: Value, segs: seq<string>)
    requires |segs| <= 1
    ensures EditVal(v, segs) != Panic ==> EditPath(v, segs) == EditVal(v, segs)
    ensures EditVal(v, segs) == Panic ==> EditPath(v, segs) == Err(JSONStringify)
  {
  }

  /** The nested object ` {"a": {"b": 1}} ` with path `a.b`, as intended. */
  lemma NestedPathIntended()
    ensures EditPath(Object([Member("a", Object([Member("b", Number(1))]))]), Split("a.b")) ==
      Ok(Object([Member("a", Object([Member("b", String("1"))]))]))
  {
    SplitTwo();
    EditNestedMember("a", "b", Number(1));
    assert Serialize(Number(1)) == "1";
  }

  /** Two keys leading into an object with one member, each holding one. */
  lemma EditNestedMember(k: string, l: string, x: Value)
    ensures EditPath(Object([Member(k, Object([Member(l, x)]))]), [k, l]) ==
      Ok(Object([Member(k, Object([Member(l, String(Serialize(x)))]))]))
  {
    var inner := Object([Member(l, x)]);
    var edited := Object([Member(l, String(Serialize(x)))]);
    EditSingleMember(l, x, String(Serialize(x)));
    EditSingleMember(k, inner, edited);
    assert [k, l][1..] == [l] && [l][1..] == [];
  }

  /** The only key of a one-member object is found at the front and replaced there. */
  lemma EditSingleMember(k: string, x: Value, y: Value)
    ensures Get([Member(k, x)], k) == Some(x)
    ensures Insert([Member(k, x)], k, y) == [Member(k, y)]
  {
    assert IndexOf([Member(k, x)], k) == 0;
  }

  // ---------------------------------------------------------------------------
  // Applying the paths.
  // ---------------------------------------------------------------------------

  /** The paths edited one after the other from the left; the first failure
      ends it. */
  function ApplyPaths(v: Value, ps: seq<string>): Result<Value>
    decreases |ps|
  {
    if ps == [] then Ok(v)
    else
      match ApplyPaths(v, ps[..|ps| - 1])
      case Ok(w) => EditPath(w, Split(ps[|ps| - 1]))
      case Err(e) => Err(e)
      case Panic => Panic
  }

  /** The same with the edit as written. */
  function ApplyPathsAsWritten(v: Value, ps: seq<string>): Result<Value>
    decreases |ps|
  {
    if ps == [] then Ok(v)
    else
      match ApplyPathsAsWritten(v, ps[..|ps| - 1])
      case Ok(w) => EditVal(w, Split(ps[|ps| - 1]))
      case Err(e) => Err(e)
      case Panic => Panic
  }

  /** What becomes of the edited value: its compact text, or the failure. */
  function Finish(r: Result<Value>): (t: Result<string>)
    ensures r.Ok? <==> t.Ok?
    ensures r.Ok? ==> t.value == Serialize(r.value)
    ensures !r.Ok? ==> (t.Err? <==> r.Err?) && (t.Err? ==> t.error == r.error)
  {
    match r
    case Ok(w) => Ok(Serialize(w))
    case Err(e) => Err(e)
    case Panic => Panic
  }

  /** `paths.unwrap_or(Vec::new())`. */
  function PathList(paths: Option<seq<string>>): seq<string>
  {
    if paths.Some? then paths.value else []
  }

  /** `stringify`, with the intended edit. */
  function StringifySpec(v: Value, paths: Option<seq<string>>): Result<string>
  {
    Finish(ApplyPaths(v, SortedByDots(PathList(paths))))
  }

  /** `stringify` with `edit_val` as written. */
  function StringifyAsWritten(v: Value, paths: Option<seq<string>>): Result<string>
  {
    Finish(ApplyPathsAsWritten(v, SortedByDots(PathList(paths))))
  }

  /** `stringify`: sort the paths in a buffer, edit a working copy path by
      path with `edit_val`, stop at the first failure, and serialise the
      result. */
  method Stringify(v: Value, paths: Option<seq<string>>) returns (r: Result<string>)
    ensures r == StringifyAsWritten(v, paths)
  {
    var ps := if paths.Some? then paths.value else [];
    var a := new string[|ps|](i requires 0 <= i < |ps| => ps[i]);
    assert a[..] == ps;
    SortByPeriodCount(a);
    var sorted := a[..];
    var buf := v;
    var i := 0;
    while i < |sorted|
      invariant 0 <= i <= |sorted|
      invariant ApplyPathsAsWritten(v, sorted[..i]) == Ok(buf)
    {
      AppliedStep(v, sorted, i, buf);
      var edited := EditVal(buf, Split(sorted[i]));
      if !edited.Ok? {
        FirstFailureAbortsAsWritten(v, sorted, i + 1);
        return Finish(edited);
      }
      buf := edited.value;
      i := i + 1;
    }
    assert sorted == sorted[..i];
    return Ok(Serialize(buf));
  }

  /** After the first i paths the next one is edited into the value they left. */
  lemma AppliedStep(v: Value, ps: seq<string>, i: nat, buf: Value)
    requires i < |ps| && ApplyPathsAsWritten(v, ps[..i]) == Ok(buf)
    ensures ApplyPathsAsWritten(v, ps[..i + 1]) == EditVal(buf, Split(ps[i]))
  {
    assert ps[..i + 1][..i] == ps[..i];
  }

  /** Once a path fails, the later ones change nothing: the call fails with
      that failure. */
  lemma {:induction false} FirstFailureAbortsAsWritten(v: Value, ps: seq<string>, i: nat)
    requires i <= |ps| && !ApplyPathsAsWritten(v, ps[..i]).Ok?
    ensures ApplyPathsAsWritten(v, ps) == ApplyPathsAsWritten(v, ps[..i])
    decreases |ps| - i
  {
    if i < |ps| {
      assert ps[..i + 1][..i] == ps[..i];
      FirstFailureAbortsAsWritten(v, ps, i + 1);
    } else {
      assert ps[..i] == ps;
    }
  }

  /** The same for the intended edit. */
  lemma {:induction false} FirstFailureAborts(v: Value, ps: seq<string>, i: nat)
    requires i <= |ps| && !ApplyPaths(v, ps[..i]).Ok?
    ensures ApplyPaths(v, ps) == ApplyPaths(v, ps[..i])
    decreases |ps| - i
  {
    if i < |ps| {
      assert ps[..i + 1][..i] == ps[..i];
      FirstFailureAborts(v, ps, i + 1);
    } else {
      assert ps[..i] == ps;
    }
  }

  /** Without paths the value is serialised unchanged. */
  lemma StringifyNoPaths(v: Value)
    ensures StringifySpec(v, None) == Ok(Serialize(v))
    ensures StringifySpec(v, Some([])) == Ok(Serialize(v))
    ensures StringifyAsWritten(v, None) == Ok(Serialize(v))
    ensures StringifyAsWritten(v, Some([])) == Ok(Serialize(v))
  {
  }

  /** Whatever the written code produces, the intended version produces too. */
  lemma {:induction false} ApplyPathsAgree(v: Value, ps: seq<string>)
    ensures ApplyPathsAsWritten(v, ps).Ok? ==> ApplyPaths(v, ps) == ApplyPathsAsWritten(v, ps)
    decreases |ps|
  {
    if ps != [] {
      var init := ps[..|ps| - 1];
      ApplyPathsAgree(v, init);
      if ApplyPathsAsWritten(v, init).Ok? {
        var w := ApplyPathsAsWritten(v, init).value;
        var segs := Split(ps[|ps| - 1]);
        if |segs| >= 2 {
          EditValMultiSegmentFails(w, segs);
        } else {
          EditPathAgrees(w, segs);
        }
      }
    }
  }

  lemma StringifyAgrees(v: Value, paths: Option<seq<string>>)
    ensures StringifyAsWritten(v, paths).Ok? ==> StringifySpec(v, paths) == StringifyAsWritten(v, paths)
  {
    ApplyPathsAgree(v, SortedByDots(PathList(paths)));
  }

  /** A value that is not an object, with a path, is a stringify error. */
  lemma StringifyNotObject(v: Value, paths: seq<string>)
    requires !v.Object? && paths != []
    ensures StringifySpec(v, Some(paths)) == Err(JSONStringify)
    ensures StringifyAsWritten(v, Some(paths)) == Err(JSONStringify)
  {
    var ps := SortedByDots(paths);
    FirstFailureAborts(v, ps, 1);
    FirstFailureAbortsAsWritten(v, ps, 1);
    assert ps[..1][..0] == [];
    var segs := Split(ps[0]);
    if |segs| >= 2 {
      EditValMultiSegmentFails(v, segs);
    }
  }

  // ---------------------------------------------------------------------------
  // The examples of the test module.
  // ---------------------------------------------------------------------------

  /** A one-member object with no paths: its compact text. */
  lemma StringifySimpleExample()
    ensures StringifySpec(Object([Member("a", String("b"))]), None) == Ok("{\"a\":\"b\"}")
    ensures StringifyAsWritten(Object([Member("a", String("b"))]), None) == Ok("{\"a\":\"b\"}")
  {
    var v := Object([Member("a", String("b"))]);
    StringifyNoPaths(v);
    SerializePair("a", "b");
    assert "{\"" + "a" + "\":\"" + "b" + "\"}" == "{\"a\":\"b\"}";
  }

  /** The text of an object with one plain key holding one plain string. */
  lemma SerializePair(k: string, x: string)
    requires forall i :: 0 <= i < |k| ==> Plain(k[i])
    requires forall i :: 0 <= i < |x| ==> Plain(x[i])
    ensures Serialize(Object([Member(k, String(x))])) == "{\"" + k + "\":\"" + x + "\"}"
  {
    assert Serialize(Object([Member(k, String(x))])) == "{" + (Quote(k) + ":" + Quote(x)) + "}" by {
      var ms := [Member(k, String(x))];
      assert MembersText(ms) == MemberText(ms[0]);
      assert Serialize(String(x)) == Quote(x);
    }
    EscapeCharsPlain(k);
    EscapeCharsPlain(x);
    Flatten("{", "\"", k, ":", x, "}");
    MergeSeparators();
  }

  /** Regrouping the pieces of a one-pair object text. */
  lemma Flatten(o: string, q: string, k: string, c: string, x: string, z: string)
    ensures o + (((q + k) + q) + c + ((q + x) + q)) + z == ((((o + q) + k) + ((q + c) + q)) + x) + (q + z)
  {
  }

  lemma MergeSeparators()
    ensures "{" + "\"" == "{\"" && ("\"" + ":") + "\"" == "\":\"" && "\"" + "}" == "\"}"
  {
  }

  /** The text of a two-member object whose members hold strings. */
  lemma QuotedPairs(k1: string, x1: string, k2: string, x2: string)
    ensures Serialize(Object([Member(k1, String(x1)), Member(k2, String(x2))])) ==
      "{" + ((Quote(k1) + ":" + Quote(x1)) + "," + (Quote(k2) + ":" + Quote(x2))) + "}"
  {
    var ns := [Member(k1, String(x1)), Member(k2, String(x2))];
    assert ns[1..] == [Member(k2, String(x2))];
    assert MembersText(ns) == MemberText(ns[0]) + "," + MembersText(ns[1..]);
    assert MembersText(ns[1..]) == MemberText(ns[1]);
  }

  /** A two-member object with plain keys, a plain first value and a second
      value whose escaped text is `e`. */
  lemma SerializeTwoPairs(k1: string, x1: string, k2: string, t: string, e: string)
    requires forall i :: 0 <= i < |k1| ==> Plain(k1[i])
    requires forall i :: 0 <= i < |x1| ==> Plain(x1[i])
    requires forall i :: 0 <= i < |k2| ==> Plain(k2[i])
    requires EscapeChars(t) == e
    ensures Serialize(Object([Member(k1, String(x1)), Member(k2, String(t))])) ==
      "{" + ((("\"" + k1 + "\"") + ":" + ("\"" + x1 + "\"")) + "," + (("\"" + k2 + "\"") + ":" + ("\"" + e + "\""))) + "}"
  {
    QuotedPairs(k1, x1, k2, t);
    EscapeCharsPlain(k1);
    EscapeCharsPlain(x1);
    EscapeCharsPlain(k2);
  }

  /** Escaping the text of a one-pair object: each of its quotes gets a
      backslash. */
  lemma EscapePairText(k: string, x: string)
    requires forall i :: 0 <= i < |k| ==> Plain(k[i])
    requires forall i :: 0 <= i < |x| ==> Plain(x[i])
    ensures EscapeChars("{\"" + k + "\":\"" + x + "\"}") == "{\\\"" + k + "\\\":\\\"" + x + "\\\"}"
  {
    EscapeCharsConcat("{\"" + k + "\":\"" + x, "\"}");
    EscapeCharsConcat("{\"" + k + "\":\"", x);
    EscapeCharsConcat("{\"" + k, "\":\"");
    EscapeCharsConcat("{\"", k);
    EscapeCharsPlain(k);
    EscapeCharsPlain(x);
    EscapeOpen();
    EscapeColon();
    EscapeClose();
  }

  lemma EscapeOpen()
    ensures EscapeChars("{\"") == "{\\\""
  {
    assert "{\""[1..] == "\"";
  }

  lemma EscapeColon()
    ensures EscapeChars("\":\"") == "\\\":\\\""
  {
    assert "\":\""[1..] == ":\"";
    assert ":\""[1..] == "\"";
  }

  lemma EscapeClose()
    ensures EscapeChars("\"}") == "\\\"}"
  {
    assert "\"}"[1..] == "}";
  }

  /** The path `c` turns the nested object under `c` into its text; the
      other member stays as it is. */
  lemma StringifyPathExample(v: Value, paths: Option<seq<string>>)
    requires v == Object([Member("a", String("b")), Member("c", Object([Member("d", String("e"))]))])
    requires paths == Some(["c"])
    ensures StringifySpec(v, paths) == Ok("{\"a\":\"b\",\"c\":\"{\\\"d\\\":\\\"e\\\"}\"}")
    ensures StringifyAsWritten(v, paths) == StringifySpec(v, paths)
  {
    var inner := Object([Member("d", String("e"))]);
    var w := Object([Member("a", String("b")), Member("c", String(Serialize(inner)))]);
    PathCEdits(v.members, inner);
    assert StringifySpec(v, paths) == Ok(Serialize(w));
    PathCText(inner, w);
    PathCWritten(v.members);
    StringifyAgrees(v, paths);
  }

  /** The written edit on path `c` does not fail: the key is there. */
  lemma PathCWritten(ms: seq<Member>)
    requires |ms| == 2 && ms[1].key == "c"
    ensures ApplyPathsAsWritten(Object(ms), SortedByDots(["c"])).Ok?
  {
    assert SortedByDots(["c"]) == ["c"];
    SplitSingle('c');
    assert ["c"][..0] == [] && "c" == ['c'];
    assert Keys(ms)[1] == "c";
    EditValSingleKey(ms, "c");
  }

  /** The text the example expects, piece by piece. */
  lemma PathCText(inner: Value, w: Value)
    requires inner == Object([Member("d", String("e"))])
    requires w == Object([Member("a", String("b")), Member("c", String(Serialize(inner)))])
    ensures Serialize(w) == "{\"a\":\"b\",\"c\":\"{\\\"d\\\":\\\"e\\\"}\"}"
  {
    var text := Serialize(inner);
    SerializePair("d", "e");
    EscapePairText("d", "e");
    var e := "{\\\"" + "d" + "\\\":\\\"" + "e" + "\\\"}";
    SerializeTwoPairs("a", "b", "c", text, e);
    var p1, p2 := ("\"" + "a" + "\"") + ":" + ("\"" + "b" + "\""), "\"" + "c" + "\"";
    Regroup(p1, p2, e);
    PathExampleAssembly(p1, p2, e);
  }

  /** Moves the brackets of two members' text to the left. */
  lemma Regroup(p1: string, p2: string, e: string)
    ensures "{" + (p1 + "," + (p2 + ":" + ("\"" + e + "\""))) + "}" == ("{" + p1 + "," + p2 + ":\"") + e + "\"}"
  {
  }

  lemma PathExampleAssembly(p1: string, p2: string, e: string)
    requires p1 == ("\"" + "a" + "\"") + ":" + ("\"" + "b" + "\"") && p2 == "\"" + "c" + "\""
    requires e == "{\\\"" + "d" + "\\\":\\\"" + "e" + "\\\"}"
    ensures ("{" + p1 + "," + p2 + ":\"") + e + "\"}" ==
      "{\"a\":\"b\",\"c\":\"{\\\"d\\\":\\\"e\\\"}\"}"
  {
    assert e == "{\\\"d\\\":\\\"e\\\"}";
    assert "{" + p1 + "," + p2 + ":\"" == "{\"a\":\"b\",\"c\":\"";
  }

  lemma PathCEdits(ms: seq<Member>, inner: Value)
    requires ms == [Member("a", String("b")), Member("c", inner)]
    ensures ApplyPaths(Object(ms), SortedByDots(["c"])) ==
      Ok(Object([Member("a", String("b")), Member("c", String(Serialize(inner)))]))
  {
    assert SortedByDots(["c"]) == ["c"];
    SplitSingle('c');
    assert ["c"][..0] == [] && "c" == ['c'];
    assert ApplyPaths(Object(ms), ["c"]) == EditPath(Object(ms), Split("c"));
    assert IndexOf(ms, "c") == 1;
    assert Get(ms, "c") == Some(inner);
    assert Insert(ms, "c", String(Serialize(inner))) == [Member("a", String("b")), Member("c", String(Serialize(inner)))];
  }

  // ---------------------------------------------------------------------------
  // The two discrepancies between the code and its evident intent.
  // ---------------------------------------------------------------------------

  /** A path naming a missing key: the written code panics, the intended
      one reports the stringify error. */
  lemma MissingKeyExample(v: Value)
    requires v == Object([Member("a", Number(1))])
    ensures StringifyAsWritten(v, Some(["b"])) == Panic
    ensures StringifySpec(v, Some(["b"])) == Err(JSONStringify)
  {
    assert SortedByDots(["b"]) == ["b"];
    SplitSingle('b');
    assert ["b"][..0] == [] && "b" == ['b'];
    assert Keys(v.members) == ["a"];
    EditValMissingKey(v.members, "b");
  }

  /** Two paths, one inside the other: written, the call fails; intended,
      the inner path is stringified first and the outer one then takes the
      edited object along. */
  lemma NestedPathsExample(v: Value, inner: Value)
    requires inner == Object([Member("b", Object([Member("c", Number(1))]))])
    requires v == Object([Member("a", inner), Member("x", Number(2))])
    ensures StringifyAsWritten(v, Some(["a", "a.b"])) == Err(JSONStringify)
    ensures ApplyPaths(v, SortedByDots(["a", "a.b"])) ==
      Ok(Object([Member("a", String(Serialize(Object([Member("b", String(Serialize(Object([Member("c", Number(1))]))))])))),
                 Member("x", Number(2))]))
  {
    assert Dots("a") == 0 && Dots("a.b") == 1;
    SortTwo("a", "a.b");
    SplitTwo();
    var ps := ["a.b", "a"];
    assert ps[..1] == ["a.b"] && ps[..1][..0] == [];
    EditValMultiSegmentFails(v, ["a", "b"]);
    assert ApplyPathsAsWritten(v, ps[..1]) == Err(JSONStringify);
    var c := Object([Member("c", Number(1))]);
    var edited := Object([Member("b", String(Serialize(c)))]);
    NestedFirstEdit(v, inner, c, edited);
    var w := Object([Member("a", edited), Member("x", Number(2))]);
    assert ApplyPaths(v, ps[..1]) == Ok(w);
    NestedSecondEdit(w, edited);
  }

  lemma NestedSecondEdit(w: Value, edited: Value)
    requires w == Object([Member("a", edited), Member("x", Number(2))])
    ensures EditPath(w, Split("a")) == Ok(Object([Member("a", String(Serialize(edited))), Member("x", Number(2))]))
  {
    SplitSingle('a');
    assert "a" == ['a'];
    assert IndexOf(w.members, "a") == 0;
    assert Get(w.members, "a") == Some(edited);
    assert Insert(w.members, "a", String(Serialize(edited))) ==
      [Member("a", String(Serialize(edited))), Member("x", Number(2))];
  }

  lemma NestedFirstEdit(v: Value, inner: Value, c: Value, edited: Value)
    requires c == Object([Member("c", Number(1))])
    requires inner == Object([Member("b", c)])
    requires v == Object([Member("a", inner), Member("x", Number(2))])
    requires edited == Object([Member("b", String(Serialize(c)))])
    ensures EditPath(v, ["a", "b"]) == Ok(Object([Member("a", edited), Member("x", Number(2))]))
  {
    assert ["a", "b"][1..] == ["b"];
    assert IndexOf(inner.members, "b") == 0;
    assert Get(inner.members, "b") == Some(c);
    assert Insert(inner.members, "b", String(Serialize(c))) == edited.members;
    assert EditPath(inner, ["b"]) == Ok(edited);
    assert IndexOf(v.members, "a") == 0;
    assert Get(v.members, "a") == Some(inner);
    assert Insert(v.members, "a", edited) == [Member("a", edited), Member("x", Number(2))];
  }
}
