/** Lists of names, and going round them. */
module Lists {
  ghost predicate Distinct<T>(s: seq<T>) { forall i, j :: 0 <= i < j < |s| ==> s[i] != s[j] }

  function Rotation(ids: seq<string>, i: nat): seq<string>
    requires i <= |ids|
  {
    ids[i..] + ids[..i]
  }

  function Without(ids: seq<string>, i: nat): seq<string>
    requires i < |ids|
  {
    ids[..i] + ids[i + 1..]
  }

  function Minus<T(==)>(s: seq<T>, x: T): seq<T> {
    if s == [] then [] else Minus(s[..|s| - 1], x) + (if s[|s| - 1] == x then [] else [s[|s| - 1]])
  }

  lemma {:induction false} MinusAbsent<T>(s: seq<T>, x: T)
    requires x !in s
    ensures Minus(s, x) == s
  {
    if s != [] { MinusAbsent(s[..|s| - 1], x); }
  }

  lemma DistinctAround(s: seq<string>, i: nat)
    requires Distinct(s) && i < |s|
    ensures s[i] !in s[..i] && s[i] !in s[i + 1..]
  {}

  lemma SplitAround(s: seq<string>, i: nat)
    requires i < |s|
    ensures s == s[..i] + ([s[i]] + s[i + 1..])
  {}

  lemma MinusAt(s: seq<string>, i: nat)
    requires Distinct(s) && i < |s|
    ensures Minus(s, s[i]) == Without(s, i)
  {
    hide Minus, Distinct;
    var a, b, x := s[..i], s[i + 1..], s[i];
    DistinctAround(s, i);
    SplitAround(s, i);
    MinusSplit(a, [x] + b, x);
    MinusSplit([x], b, x);
    MinusOne(x, x);
    MinusAbsent(a, x);
    MinusAbsent(b, x);
    assert Minus([x] + b, x) == b;
  }

  lemma {:induction false} MinusMembers<T>(s: seq<T>, x: T)
    ensures forall y :: y in Minus(s, x) <==> y in s && y != x
  {
    if s != [] {
      MinusMembers(s[..|s| - 1], x);
      assert s == s[..|s| - 1] + [s[|s| - 1]];
    }
  }

  lemma {:induction false} MinusSplit<T>(a: seq<T>, b: seq<T>, x: T)
    ensures Minus(a + b, x) == Minus(a, x) + Minus(b, x)
  {
    if b == [] {
      assert a + b == a;
    } else {
      assert (a + b)[..|a + b| - 1] == a + b[..|b| - 1];
      MinusSplit(a, b[..|b| - 1], x);
    }
  }

  lemma MinusOne<T>(y: T, x: T)
    ensures Minus([y], x) == (if y == x then [] else [y]) && Minus([], x) == []
  {
    assert [y][..0] == [];
  }

  function IndexIn(ids: seq<string>, id: string): (i: nat)
    requires id in ids
    ensures i < |ids| && ids[i] == id && id !in ids[..i]
  {
    if ids[0] == id then 0 else 1 + IndexIn(ids[1..], id)
  }

  lemma IndexOfDistinct(ids: seq<string>, i: nat)
    requires Distinct(ids) && i < |ids|
    ensures IndexIn(ids, ids[i]) == i
  {}

  lemma {:induction false} IndexInConcat(a: seq<string>, b: seq<string>, x: string)
    requires x in a || x in b
    ensures IndexIn(a + b, x) == if x in a then IndexIn(a, x) else |a| + IndexIn(b, x)
  {
    if a == [] {
      assert a + b == b;
    } else if a[0] != x {
      assert (a + b)[1..] == a[1..] + b;
      IndexInConcat(a[1..], b, x);
    }
  }

  // ---------------------------------------------------------------- going round

  lemma Twice(i: nat, n: nat)
    requires n > 0
    ensures (i % n) % n == i % n
  {}

  lemma Remainder(a: nat, q: nat, r: nat, n: nat)
    requires n > 0 && r < n && a == n * q + r
    ensures a % n == r
  {
    var d := q - a / n;
    assert n * d == a % n - r;
    assert d >= 1 ==> n * d >= n;
    assert d <= -1 ==> n * d <= -1 * n;
  }

  lemma NextSlot(q: nat, n: nat)
    requires n > 0
    ensures (q % n + 1) % n == (q + 1) % n
  {
    var r := q % n;
    assert q == n * (q / n) + r;
    if r < n - 1 {
      Remainder(q + 1, q / n, r + 1, n);
      Remainder(r + 1, 0, r + 1, n);
    } else {
      Remainder(q + 1, q / n + 1, 0, n);
      Remainder(r + 1, 1, 0, n);
    }
  }
}
