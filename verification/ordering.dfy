/** Python's order on strings, and `sorted` over a collection without duplicates.

  `str` values are compared code point by code point, and a proper prefix comes first.
  Every `sorted(...)` of the modelled code ranges over distinct keys, so its result is the
  one strictly increasing enumeration of a set of strings. */
module Ordering {

  predicate Less(a: string, b: string) {
    b != "" && (a == "" || a[0] < b[0] || (a[0] == b[0] && Less(a[1..], b[1..])))
  }

  lemma {:induction false} LessTotal(a: string, b: string)
    ensures a == b || Less(a, b) || Less(b, a)
  {
    if a != "" && b != "" && a[0] == b[0] {
      LessTotal(a[1..], b[1..]);
      assert a == [a[0]] + a[1..] && b == [b[0]] + b[1..];
    }
  }

  lemma {:induction false} LessAsymmetric(a: string, b: string)
    ensures !(Less(a, b) && Less(b, a)) && !Less(a, a)
  {
    if a != "" && b != "" {
      LessAsymmetric(a[1..], b[1..]);
    }
    if a != "" {
      LessAsymmetric(a[1..], a[1..]);
    }
  }

  lemma {:induction false} LessTransitive(a: string, b: string, c: string)
    requires Less(a, b) && Less(b, c)
    ensures Less(a, c)
  {
    if a != "" && a[0] == b[0] == c[0] {
      LessTransitive(a[1..], b[1..], c[1..]);
    }
  }

  /** A common prefix does not matter. */
  lemma {:induction false} LessPrefixed(p: string, a: string, b: string)
    ensures Less(p + a, p + b) <==> Less(a, b)
  {
    if p == "" {
      assert p + a == a && p + b == b;
    } else {
      assert (p + a)[1..] == p[1..] + a && (p + b)[1..] == p[1..] + b;
      LessPrefixed(p[1..], a, b);
    }
  }

  /** Texts of equal width are ordered by their heads first, then by what follows. */
  lemma {:induction false} LessFieldwise(a: string, b: string, x: string, y: string)
    requires |a| == |b|
    ensures Less(a + x, b + y) <==> Less(a, b) || (a == b && Less(x, y))
  {
    if a == "" {
      assert a + x == x && b + y == y;
    } else {
      assert (a + x)[1..] == a[1..] + x && (b + y)[1..] == b[1..] + y;
      assert a == [a[0]] + a[1..] && b == [b[0]] + b[1..];
      LessFieldwise(a[1..], b[1..], x, y);
    }
  }

  ghost predicate Increasing(s: seq<string>) {
    forall i, j | 0 <= i < j < |s| :: Less(s[i], s[j])
  }

  function Elements<T>(s: seq<T>): set<T> {
    set x | x in s
  }

  ghost predicate Distinct<T>(s: seq<T>) {
    forall i, j | 0 <= i < j < |s| :: s[i] != s[j]
  }

  lemma IncreasingDistinct(s: seq<string>)
    requires Increasing(s)
    ensures Distinct(s)
  {
    forall i, j | 0 <= i < j < |s| ensures s[i] != s[j] {
      LessAsymmetric(s[i], s[j]);
    }
  }

  lemma {:induction false} DistinctCount<T>(s: seq<T>)
    ensures |Elements(s)| <= |s|
    ensures |Elements(s)| == |s| <==> Distinct(s)
  {
    if s != [] {
      var rest := s[..|s| - 1];
      var last := s[|s| - 1];
      DistinctCount(rest);
      assert Elements(s) == Elements(rest) + {last};
      if last in rest {
        assert Elements(s) == Elements(rest);
        var i :| 0 <= i < |rest| && rest[i] == last;
        assert s[i] == s[|s| - 1];
      } else if Distinct(rest) {
        forall i, j | 0 <= i < j < |s| ensures s[i] != s[j] {
          if j < |rest| {
            assert rest[i] != rest[j];
          } else {
            assert rest[i] in rest;
          }
        }
      } else {
        var i, j :| 0 <= i < j < |rest| && rest[i] == rest[j];
        assert s[i] == s[j];
      }
    }
  }

  lemma SubsetCount<T>(a: set<T>, b: set<T>)
    requires a <= b
    ensures |a| <= |b|
  {
    assert b == a + (b - a);
  }

  predicate IsLeast(x: string, s: set<string>) {
    x in s && forall y | y in s :: y == x || Less(x, y)
  }

  lemma {:induction false} LeastExists(s: set<string>)
    requires s != {}
    ensures exists x :: IsLeast(x, s)
  {
    var a :| a in s;
    if s == {a} {
      assert IsLeast(a, s);
    } else {
      var rest := s - {a};
      LeastExists(rest);
      var x :| IsLeast(x, rest);
      LessTotal(a, x);
      if Less(x, a) {
        assert IsLeast(x, s);
      } else {
        forall y | y in s ensures y == a || Less(a, y) {
          if y != a && y != x {
            LessTransitive(a, x, y);
          }
        }
        assert IsLeast(a, s);
      }
    }
  }

  function Least(s: set<string>): (x: string)
    requires s != {}
    ensures IsLeast(x, s)
  {
    LeastExists(s);
    LeastUnique(s);
    var x :| IsLeast(x, s);
    x
  }

  lemma LeastUnique(s: set<string>)
    ensures forall x, y :: IsLeast(x, s) && IsLeast(y, s) ==> x == y
  {
    forall x, y | IsLeast(x, s) && IsLeast(y, s) ensures x == y {
      LessAsymmetric(x, y);
    }
  }

  /** `sorted(keys)` for distinct keys. */
  function Sorted(s: set<string>): (r: seq<string>)
    ensures Increasing(r) && Elements(r) == s && |r| == |s|
  {
    if s == {} then []
    else
      var x := Least(s);
      var rest := Sorted(s - {x});
      SortedStep(x, rest, s);
      [x] + rest
  }

  lemma SortedStep(x: string, rest: seq<string>, s: set<string>)
    requires IsLeast(x, s) && Increasing(rest) && Elements(rest) == s - {x}
    ensures Increasing([x] + rest) && Elements([x] + rest) == s
  {
    var r := [x] + rest;
    assert Elements(r) == {x} + Elements(rest);
    forall i, j | 0 <= i < j < |r| ensures Less(r[i], r[j]) {
      if i == 0 {
        assert rest[j - 1] in Elements(rest);
      }
    }
  }

  /** Sorting leaves no freedom: a strictly increasing sequence is determined by its elements. */
  lemma {:induction false} SortedUnique(a: seq<string>, b: seq<string>)
    requires Increasing(a) && Increasing(b) && Elements(a) == Elements(b)
    ensures a == b
  {
    IncreasingDistinct(a);
    IncreasingDistinct(b);
    DistinctCount(a);
    DistinctCount(b);
    if a != [] {
      SortedHead(a, b);
      SortedHead(b, a);
      LessAsymmetric(a[0], b[0]);
      SortedTail(a);
      SortedTail(b);
      SortedUnique(a[1..], b[1..]);
      assert a == [a[0]] + a[1..] && b == [b[0]] + b[1..];
    }
  }

  lemma SortedHead(a: seq<string>, b: seq<string>)
    requires a != [] && b != [] && Increasing(b) && Elements(a) == Elements(b)
    ensures a[0] == b[0] || Less(b[0], a[0])
  {
    assert a[0] in Elements(b);
    var i :| 0 <= i < |b| && b[i] == a[0];
  }

  lemma SortedTail(a: seq<string>)
    requires a != [] && Increasing(a)
    ensures Increasing(a[1..]) && Elements(a[1..]) == Elements(a) - {a[0]}
  {
    IncreasingDistinct(a);
    assert a == [a[0]] + a[1..];
  }

  lemma SortedOf(a: seq<string>)
    requires Increasing(a)
    ensures Sorted(Elements(a)) == a
  {
    SortedUnique(Sorted(Elements(a)), a);
  }

  /** Dropping the first k keys sorts what is left. */
  lemma SortedDrop(s: set<string>, k: nat)
    requires k <= |Sorted(s)|
    ensures Sorted(s - Elements(Sorted(s)[..k])) == Sorted(s)[k..]
  {
    IncreasingDrop(Sorted(s), k);
    SortedOf(Sorted(s)[k..]);
  }

  lemma {:induction false} IncreasingDrop(r: seq<string>, k: nat)
    requires Increasing(r) && k <= |r|
    ensures Increasing(r[k..]) && Elements(r[k..]) == Elements(r) - Elements(r[..k])
  {
    if k == 0 {
      assert r[0..] == r && r[..0] == [];
    } else {
      IncreasingDrop(r, k - 1);
      SortedTail(r[k - 1..]);
      assert r[k - 1..][1..] == r[k..];
      assert r[..k] == r[..k - 1] + [r[k - 1]];
      assert Elements(r[..k]) == Elements(r[..k - 1]) + {r[k - 1]};
    }
  }

  /** `key` tells the members of s apart. */
  ghost predicate InjectiveOn<T(!new)>(key: T -> string, s: set<T>) {
    forall x, y | x in s && y in s && key(x) == key(y) :: x == y
  }

  function Keys<T>(key: T -> string, s: set<T>): set<string> {
    set x | x in s :: key(x)
  }

  function WithKey<T(==)>(key: T -> string, s: set<T>, k: string): (x: T)
    requires k in Keys(key, s)
    requires forall x, y | x in s && y in s && key(x) == key(y) :: x == y
    ensures x in s && key(x) == k
  {
    var x :| x in s && key(x) == k;
    x
  }

  /** `sorted(s, key=key)` when the keys are distinct. */
  function SortBy<T(!new)>(key: T -> string, s: set<T>): (r: seq<T>)
    requires InjectiveOn(key, s)
    ensures |r| == |s| == |Sorted(Keys(key, s))| && Elements(r) == s
    ensures forall i | 0 <= i < |r| :: key(r[i]) == Sorted(Keys(key, s))[i]
  {
    var r := PickAll(key, s, Sorted(Keys(key, s)));
    SortByElements(key, s, r);
    r
  }

  function PickAll<T>(key: T -> string, s: set<T>, ks: seq<string>): (r: seq<T>)
    requires forall k | k in ks :: k in Keys(key, s)
    requires forall x, y | x in s && y in s && key(x) == key(y) :: x == y
    ensures |r| == |ks|
    ensures forall i | 0 <= i < |r| :: r[i] in s && key(r[i]) == ks[i]
  {
    if ks == [] then [] else [WithKey(key, s, ks[0])] + PickAll(key, s, ks[1..])
  }

  lemma SortByElements<T(!new)>(key: T -> string, s: set<T>, r: seq<T>)
    requires InjectiveOn(key, s)
    requires |r| == |Sorted(Keys(key, s))|
    requires forall i | 0 <= i < |r| :: r[i] in s && key(r[i]) == Sorted(Keys(key, s))[i]
    ensures |r| == |s| && Elements(r) == s
  {
    KeysCount(key, s);
    var ks := Sorted(Keys(key, s));
    forall x | x in s ensures x in r {
      assert key(x) in Elements(ks);
      var i :| 0 <= i < |ks| && ks[i] == key(x);
      assert r[i] == x;
    }
  }

  lemma {:induction false} KeysCount<T(!new)>(key: T -> string, s: set<T>)
    requires InjectiveOn(key, s)
    ensures |Keys(key, s)| == |s|
  {
    if s != {} {
      var x :| x in s;
      KeysCount(key, s - {x});
      assert Keys(key, s) == Keys(key, s - {x}) + {key(x)};
      assert key(x) !in Keys(key, s - {x});
    } else {
      assert Keys(key, s) == {};
    }
  }

  ghost predicate IncreasingBy<T>(key: T -> string, s: seq<T>) {
    forall i, j | 0 <= i < j < |s| :: Less(key(s[i]), key(s[j]))
  }

  lemma SortByIncreasing<T(!new)>(key: T -> string, s: set<T>)
    requires InjectiveOn(key, s)
    ensures IncreasingBy(key, SortBy(key, s))
  {
  }

  /** A sequence in key order is determined by its elements. */
  lemma {:induction false} InKeyOrderUnique<T(!new)>(key: T -> string, a: seq<T>, b: seq<T>)
    requires IncreasingBy(key, a) && IncreasingBy(key, b) && Elements(a) == Elements(b)
    ensures a == b
  {
    KeyOrderDistinct(key, a);
    KeyOrderDistinct(key, b);
    DistinctCount(a);
    DistinctCount(b);
    if a != [] {
      KeyOrderHead(key, a, b);
      KeyOrderHead(key, b, a);
      LessAsymmetric(key(a[0]), key(b[0]));
      KeyOrderTail(key, a);
      KeyOrderTail(key, b);
      InKeyOrderUnique(key, a[1..], b[1..]);
      assert a == [a[0]] + a[1..] && b == [b[0]] + b[1..];
    }
  }

  lemma KeyOrderDistinct<T>(key: T -> string, s: seq<T>)
    requires IncreasingBy(key, s)
    ensures Distinct(s)
  {
    forall i, j | 0 <= i < j < |s| ensures s[i] != s[j] {
      LessAsymmetric(key(s[i]), key(s[j]));
    }
  }

  lemma KeyOrderHead<T>(key: T -> string, a: seq<T>, b: seq<T>)
    requires a != [] && b != [] && IncreasingBy(key, b) && Elements(a) == Elements(b)
    ensures a[0] == b[0] || Less(key(b[0]), key(a[0]))
  {
    assert a[0] in Elements(b);
    var i :| 0 <= i < |b| && b[i] == a[0];
  }

  lemma KeyOrderTail<T>(key: T -> string, a: seq<T>)
    requires a != [] && IncreasingBy(key, a)
    ensures IncreasingBy(key, a[1..]) && Elements(a[1..]) == Elements(a) - {a[0]}
  {
    KeyOrderDistinct(key, a);
    assert a == [a[0]] + a[1..];
  }

  function KeyList<T>(key: T -> string, s: seq<T>): (r: seq<string>)
    ensures |r| == |s| && forall i | 0 <= i < |r| :: r[i] == key(s[i])
  {
    if s == [] then [] else [key(s[0])] + KeyList(key, s[1..])
  }

  lemma KeyListElements<T>(key: T -> string, s: seq<T>)
    ensures Elements(KeyList(key, s)) == Keys(key, Elements(s))
  {
  }

  lemma DistinctKeyList<T(!new)>(key: T -> string, s: seq<T>)
    requires Distinct(s) && InjectiveOn(key, Elements(s))
    ensures Distinct(KeyList(key, s))
  {
  }
}
