/**
 * The order `str`'s `Ord` puts on strings (lexicographic; for Unicode scalar
 * values code-point order and UTF-8 byte order agree), and the sorting that
 * `Vec::sort` and `Vec::sort_by` perform, as a specification of their result.
 */
module Order {

  /** `a <= b` in lexicographic order. */
  predicate Le(a: string, b: string)
    decreases |a|
  {
    a == [] || (b != [] && (a[0] < b[0] || (a[0] == b[0] && Le(a[1..], b[1..]))))
  }

  lemma {:induction false} LeReflexive(a: string)
    ensures Le(a, a)
    decreases |a|
  {
    if a != [] { LeReflexive(a[1..]); }
  }

  lemma {:induction false} LeTotal(a: string, b: string)
    ensures Le(a, b) || Le(b, a)
    decreases |a|
  {
    if a != [] && b != [] && a[0] == b[0] { LeTotal(a[1..], b[1..]); }
  }

  lemma {:induction false} LeTransitive(a: string, b: string, c: string)
    requires Le(a, b) && Le(b, c)
    ensures Le(a, c)
    decreases |a|
  {
    if a != [] && a[0] == b[0] && b[0] == c[0] { LeTransitive(a[1..], b[1..], c[1..]); }
  }

  lemma {:induction false} LeAntisymmetric(a: string, b: string)
    requires Le(a, b) && Le(b, a)
    ensures a == b
    decreases |a|
  {
    if a != [] {
      LeAntisymmetric(a[1..], b[1..]);
      assert a == [a[0]] + a[1..] && b == [b[0]] + b[1..];
    }
  }

  predicate SortedBy<T>(s: seq<T>, key: T -> string) {
    forall i, j :: 0 <= i < j < |s| ==> Le(key(s[i]), key(s[j]))
  }

  predicate Sorted(s: seq<string>) {
    forall i, j :: 0 <= i < j < |s| ==> Le(s[i], s[j])
  }

  predicate NoDup<T(==)>(s: seq<T>) {
    forall i, j :: 0 <= i < j < |s| ==> s[i] != s[j]
  }

  /** Inserts `x` after every element whose key is not greater than its own. */
  function InsertBy<T>(x: T, s: seq<T>, key: T -> string): (r: seq<T>)
    ensures multiset(r) == multiset(s) + multiset{x}
    ensures |r| == |s| + 1
    ensures r[0] == x || (s != [] && r[0] == s[0])
    ensures SortedBy(s, key) ==> SortedBy(r, key)
    decreases |s|
  {
    if s == [] then [x]
    else if Le(key(s[0]), key(x)) then
      var rest := InsertBy(x, s[1..], key);
      assert s == [s[0]] + s[1..];
      InsertAfterHead(x, s, rest, key);
      [s[0]] + rest
    else
      InsertBeforeHead(x, s, key);
      [x] + s
  }

  /** Keeping a head not above `x` in front of the insertion into the tail keeps the order. */
  lemma InsertAfterHead<T>(x: T, s: seq<T>, rest: seq<T>, key: T -> string)
    requires s != [] && Le(key(s[0]), key(x))
    requires multiset(rest) == multiset(s[1..]) + multiset{x}
    requires |rest| == |s|
    requires SortedBy(s[1..], key) ==> SortedBy(rest, key)
    ensures SortedBy(s, key) ==> SortedBy([s[0]] + rest, key)
  {
    if SortedBy(s, key) {
      var r := [s[0]] + rest;
      forall i, j | 0 <= i < j < |r| ensures Le(key(r[i]), key(r[j])) {
        if i == 0 {
          var y := r[j];
          assert y in multiset(rest);
          assert y == x || y in s[1..];
          if y != x {
            var k :| 0 <= k < |s[1..]| && s[1..][k] == y;
            assert s[k + 1] == y;
          }
        } else {
          assert r[i] == rest[i - 1] && r[j] == rest[j - 1];
        }
      }
    }
  }

  /** `x` below the head goes in front, and the order is kept. */
  lemma InsertBeforeHead<T>(x: T, s: seq<T>, key: T -> string)
    requires s != [] && !Le(key(s[0]), key(x))
    ensures SortedBy(s, key) ==> SortedBy([x] + s, key)
  {
    LeTotal(key(x), key(s[0]));
    if SortedBy(s, key) {
      forall j | 0 < j < |[x] + s| ensures Le(key(x), key(([x] + s)[j])) {
        if j > 1 { LeTransitive(key(x), key(s[0]), key(s[j - 1])); }
      }
    }
  }

  /** Insertion sort: a sorted permutation of `s`. */
  function SortBy<T>(s: seq<T>, key: T -> string): (r: seq<T>)
    ensures multiset(r) == multiset(s) && |r| == |s|
    ensures SortedBy(r, key)
    decreases |s|
  {
    if s == [] then []
    else
      assert s == s[..|s| - 1] + [s[|s| - 1]];
      InsertBy(s[|s| - 1], SortBy(s[..|s| - 1], key), key)
  }

  lemma {:induction false} MultisetCountNoDup<T>(s: seq<T>)
    requires NoDup(s)
    ensures forall x :: multiset(s)[x] <= 1
    decreases |s|
  {
    if s != [] {
      MultisetCountNoDup(s[1..]);
      assert s == [s[0]] + s[1..];
      assert forall k :: 0 <= k < |s[1..]| ==> s[1..][k] == s[k + 1] != s[0];
      assert s[0] !in s[1..];
    }
  }

  lemma Occurrences<T>(b: seq<T>, i: nat, j: nat)
    requires i < j < |b|
    ensures b[i] == b[j] ==> multiset(b)[b[i]] >= 2
  {
    assert b == b[..i] + [b[i]] + b[i + 1..j] + [b[j]] + b[j + 1..];
  }

  /** A permutation of a duplicate-free sequence is duplicate-free. */
  lemma NoDupPermutation<T>(a: seq<T>, b: seq<T>)
    requires NoDup(a) && multiset(a) == multiset(b)
    ensures NoDup(b)
  {
    MultisetCountNoDup(a);
    forall i, j | 0 <= i < j < |b| ensures b[i] != b[j] {
      Occurrences(b, i, j);
    }
  }

  /** A non-empty set of strings has a least member. */
  lemma {:induction false} LeastExists(s: set<string>)
    requires s != {}
    ensures exists m :: IsLeast(m, s)
    decreases |s|
  {
    var x :| x in s;
    if s == {x} {
      LeReflexive(x);
      assert forall y :: y in s ==> y == x;
      assert IsLeast(x, s);
    } else {
      LeastExists(s - {x});
      var m :| IsLeast(m, s - {x});
      LeTotal(x, m);
      if Le(x, m) {
        LeReflexive(x);
        forall y | y in s ensures Le(x, y) {
          if y != x { LeTransitive(x, m, y); }
        }
        assert IsLeast(x, s);
      } else {
        assert IsLeast(m, s);
      }
    }
  }

  predicate IsLeast(m: string, s: set<string>) {
    m in s && forall y :: y in s ==> Le(m, y)
  }

  lemma LeastUnique(s: set<string>)
    ensures forall a, b :: IsLeast(a, s) && IsLeast(b, s) ==> a == b
  {
    forall a, b | IsLeast(a, s) && IsLeast(b, s) ensures a == b {
      LeAntisymmetric(a, b);
    }
  }

  /** The least member of a non-empty set of strings. */
  function Least(s: set<string>): (m: string)
    requires s != {}
    ensures m in s && forall y :: y in s ==> Le(m, y)
  {
    LeastExists(s);
    LeastUnique(s);
    var m :| IsLeast(m, s);
    m
  }

  /** The members of a set of strings in ascending order. */
  function Ascending(s: set<string>): (r: seq<string>)
    ensures Sorted(r) && NoDup(r)
    ensures forall x :: x in r <==> x in s
    decreases |s|
  {
    if s == {} then []
    else
      var m := Least(s);
      var rest := Ascending(s - {m});
      assert forall j :: 0 <= j < |rest| ==> rest[j] in rest && Le(m, rest[j]);
      [m] + rest
  }

  /**
   * Collecting a `HashSet<String>` into a `Vec` and sorting it: the result is
   * sorted, duplicate-free, and holds exactly the set's members.
   */
  method SortedList(ids: set<string>) returns (r: seq<string>)
    ensures Sorted(r) && NoDup(r)
    ensures forall x :: x in r <==> x in ids
  {
    var collected: seq<string> := [];
    var rest := ids;
    while rest != {}
      invariant rest <= ids && NoDup(collected)
      invariant forall x :: x in collected <==> x in ids && x !in rest
      decreases rest
    {
      var x :| x in rest;
      collected := collected + [x];
      rest := rest - {x};
    }
    r := SortBy(collected, (s: string) => s);
    NoDupPermutation(collected, r);
    forall x ensures x in r <==> x in collected {
      assert x in r <==> x in multiset(r);
      assert x in collected <==> x in multiset(collected);
    }
  }
}
