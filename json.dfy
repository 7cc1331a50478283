/** The in-memory JSON value the core works on, and the helpers on an
    object's member list that the algorithms share. */
module Json {
  import opened Results

  /** A JSON value. Numbers are integers; an object keeps its members in
      insertion order. */
  datatype Value =
    | Null
    | Bool(b: bool)
    | Number(n: int)
    | String(s: string)
    | Array(items: seq<Value>)
    | Object(members: seq<Member>)

  datatype Member = Member(key: string, value: Value)

  /** A measure of a value: a string counts one more than its length, a
      composite one more than its children together. */
  function Size(v: Value): (r: nat)
    ensures r >= 1
    decreases v
  {
    match v
    case String(s) => |s| + 1
    case Array(items) => 1 + ItemsSize(items)
    case Object(ms) => 1 + MembersSize(ms)
    case _ => 1
  }

  function ItemsSize(xs: seq<Value>): nat
    decreases xs
  {
    if xs == [] then 0 else Size(xs[0]) + ItemsSize(xs[1..])
  }

  function MembersSize(ms: seq<Member>): nat
    decreases ms
  {
    if ms == [] then 0 else Size(ms[0].value) + MembersSize(ms[1..])
  }

  /** An element of an array is smaller than the array. */
  lemma {:induction false} ItemSmaller(xs: seq<Value>, i: nat)
    requires i < |xs|
    ensures Size(xs[i]) <= ItemsSize(xs)
    ensures Size(xs[i]) < Size(Array(xs))
  {
    if i > 0 {
      ItemSmaller(xs[1..], i - 1);
    }
  }

  /** A member's value is smaller than the object holding it. */
  lemma {:induction false} MemberSmaller(ms: seq<Member>, i: nat)
    requires i < |ms|
    ensures Size(ms[i].value) <= MembersSize(ms)
    ensures Size(ms[i].value) < Size(Object(ms))
  {
    if i > 0 {
      MemberSmaller(ms[1..], i - 1);
    }
  }

  /** A value found under a key is smaller than the object holding it. */
  lemma GetSmaller(ms: seq<Member>, k: string)
    ensures Get(ms, k).Some? ==> Size(Get(ms, k).value) < Size(Object(ms))
  {
    var i := IndexOf(ms, k);
    if i < |ms| {
      MemberSmaller(ms, i);
    }
  }

  function Keys(ms: seq<Member>): (ks: seq<string>)
    ensures |ks| == |ms|
    ensures forall i :: 0 <= i < |ms| ==> ks[i] == ms[i].key
  {
    seq(|ms|, i requires 0 <= i < |ms| => ms[i].key)
  }

  /** No key occurs twice in a member list. */
  predicate UniqueKeys(ms: seq<Member>)
  {
    forall i, j :: 0 <= i < j < |ms| ==> ms[i].key != ms[j].key
  }

  /** Every object inside `v`, `v` included, has unique keys. */
  predicate WellFormed(v: Value)
    decreases v
  {
    match v
    case Array(items) => forall i :: 0 <= i < |items| ==> WellFormed(items[i])
    case Object(ms) => UniqueKeys(ms) && forall i :: 0 <= i < |ms| ==> WellFormed(ms[i].value)
    case _ => true
  }

  /** The position of the first member with key `k`, or `|ms|` when there is none. */
  function IndexOf(ms: seq<Member>, k: string): (i: nat)
    ensures i <= |ms|
    ensures i < |ms| ==> ms[i].key == k
    ensures forall j :: 0 <= j < i ==> ms[j].key != k
    decreases ms
  {
    if ms == [] then 0
    else if ms[0].key == k then 0
    else 1 + IndexOf(ms[1..], k)
  }

  /** The value stored under `k` (the map's `get`). */
  function Get(ms: seq<Member>, k: string): (r: Option<Value>)
    ensures r.Some? <==> k in Keys(ms)
    ensures r.Some? ==> exists i :: 0 <= i < |ms| && ms[i] == Member(k, r.value)
  {
    var i := IndexOf(ms, k);
    if i < |ms| then Some(ms[i].value) else None
  }

  /** The map's `insert`: an existing key keeps its position and gets the new
      value; a new key is appended. */
  function Insert(ms: seq<Member>, k: string, x: Value): (r: seq<Member>)
    ensures k in Keys(ms) ==> |r| == |ms|
    ensures k !in Keys(ms) ==> r == ms + [Member(k, x)]
    ensures k in Keys(r) && Get(r, k) == Some(x)
    ensures forall j :: 0 <= j < |ms| && ms[j].key != k ==> r[j] == ms[j]
  {
    var i := IndexOf(ms, k);
    var r := if i < |ms| then ms[i := Member(k, x)] else ms + [Member(k, x)];
    IndexOfFirst(r, k, i);
    r
  }

  /** A position holding `k` with no `k` before it is what IndexOf finds. */
  lemma {:induction false} IndexOfFirst(ms: seq<Member>, k: string, i: nat)
    requires i < |ms| && ms[i].key == k
    requires forall j :: 0 <= j < i ==> ms[j].key != k
    ensures IndexOf(ms, k) == i
  {
    if i > 0 {
      IndexOfFirst(ms[1..], k, i - 1);
    }
  }

  /** A member list rebuilt with the same first key and a tail of the same keys has the same keys. */
  lemma KeysCons(ms: seq<Member>, y: Value, ns: seq<Member>)
    requires ms != [] && Keys(ns) == Keys(ms[1..])
    ensures Keys([Member(ms[0].key, y)] + ns) == Keys(ms)
  {
    var r := [Member(ms[0].key, y)] + ns;
    assert forall i :: 1 <= i < |r| ==> r[i] == ns[i - 1];
  }

  /** Inserting under a key already present keeps the key list, and so keeps it unique. */
  lemma InsertKeepsKeys(ms: seq<Member>, k: string, x: Value)
    requires k in Keys(ms)
    ensures Keys(Insert(ms, k, x)) == Keys(ms)
    ensures UniqueKeys(ms) ==> UniqueKeys(Insert(ms, k, x))
  {
  }

  /** Inserting under one key leaves the lookup of every other key as it was. */
  lemma GetInsertOther(ms: seq<Member>, k: string, x: Value, j: string)
    requires j != k
    ensures Get(Insert(ms, k, x), j) == Get(ms, j)
  {
    var r := Insert(ms, k, x);
    var p := IndexOf(ms, j);
    if k in Keys(ms) {
      InsertKeepsKeys(ms, k, x);
      assert forall q :: 0 <= q < |ms| ==> r[q].key == Keys(r)[q] == Keys(ms)[q] == ms[q].key;
    } else {
      assert forall q :: 0 <= q < |ms| ==> r[q] == ms[q];
      assert Keys(r) == Keys(ms) + [k];
    }
    if p < |ms| {
      IndexOfFirst(r, j, p);
    }
  }

}
