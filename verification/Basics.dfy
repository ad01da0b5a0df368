// Python's None, and results that may be an error.
module Options {
  datatype Option<+T> = None | Some(value: T)

  datatype Result<+T, +E> = Ok(value: T) | Err(error: E)
}

// Cardinality facts about finite sets that several components count with.
module Sets {

  lemma {:induction false} SubsetCardinality<T>(a: set<T>, b: set<T>)
    requires a <= b
    ensures |a| <= |b|
    decreases a
  {
    if a == {} {
    } else {
      var x :| x in a;
      SubsetCardinality(a - {x}, b - {x});
    }
  }

  lemma SubsetEqual<T>(a: set<T>, b: set<T>)
    requires a <= b && |a| == |b|
    ensures a == b
  {
    if x :| x in b && x !in a {
      SubsetCardinality(a, b - {x});
    }
  }

  lemma DisjointUnion<T>(a: set<T>, b: set<T>)
    requires a !! b
    ensures |a + b| == |a| + |b|
  {
  }

  lemma UnionCardinality<T>(a: set<T>, b: set<T>)
    ensures |a + b| <= |a| + |b|
  {
    DisjointUnion(a, b - a);
    SubsetCardinality(b - a, b);
    assert a + b == a + (b - a);
  }

  lemma {:induction false} InjectiveImage<S, T>(a: set<S>, f: S -> T, image: set<T>)
    requires image == set x | x in a :: f(x)
    requires forall x, y | x in a && y in a && f(x) == f(y) :: x == y
    ensures |image| == |a|
    decreases a
  {
    if a == {} {
    } else {
      var x :| x in a;
      var rest := a - {x};
      assert image - {f(x)} == set y | y in rest :: f(y);
      InjectiveImage(rest, f, image - {f(x)});
      assert f(x) in image;
    }
  }

  // The naturals below n.
  function Below(n: nat): (s: set<nat>)
    ensures |s| == n
    ensures forall i: nat :: i in s <==> i < n
  {
    if n == 0 then {} else Below(n - 1) + {n - 1}
  }
}

// Order facts about real division, proved through products.
module Reals {

  lemma ProductPositive(x: real, d: real)
    requires x > 0.0 && d > 0.0
    ensures x * d > 0.0
  {
  }

  lemma ProductOrder(x: real, y: real, d: real)
    requires d > 0.0
    ensures x <= y <==> x * d <= y * d
  {
    if x < y {
      ProductPositive(y - x, d);
      assert (y - x) * d == y * d - x * d;
    } else if y < x {
      ProductPositive(x - y, d);
      assert (x - y) * d == x * d - y * d;
    }
  }

  lemma Quotient(a: real, d: real)
    requires d > 0.0
    ensures (a / d) * d == a
  {
  }

  // Dividing by a positive number keeps the order both ways.
  lemma QuotientOrder(a: real, b: real, d: real)
    requires d > 0.0
    ensures a <= b <==> a / d <= b / d
  {
    Quotient(a, d);
    Quotient(b, d);
    ProductOrder(a / d, b / d, d);
  }

  lemma QuotientSelf(d: real)
    requires d > 0.0
    ensures d / d == 1.0
    ensures 0.0 / d == 0.0
  {
  }

  // p <= a / d says p * d <= a.
  lemma QuotientBound(p: real, a: real, d: real)
    requires d > 0.0
    ensures p <= a / d <==> p * d <= a
  {
    Quotient(a, d);
    ProductOrder(p, a / d, d);
  }

  lemma QuotientWithin(a: real, d: real, level: real)
    requires d > 0.0
    ensures a / d <= level <==> a <= level * d
  {
    Quotient(a, d);
    ProductOrder(a / d, level, d);
  }

  // A share of a total, named so that proofs can treat the product as one term.
  function Share(a: real, total: real): real {
    a * total
  }

  lemma ShareFacts(k: nat, total: real)
    ensures Share(0.0, total) == 0.0
    ensures Share((k + 1) as real, total) == total + Share(k as real, total)
  {
  }

  lemma ShareNonnegative(a: real, total: real)
    requires a >= 0.0 && total >= 0.0
    ensures Share(a, total) >= 0.0
  {
  }

  // k shares of a k-th make the whole share.
  lemma ShareSplits(k: nat, a: real, total: real)
    requires k > 0
    ensures Share(k as real, Share(a / k as real, total)) == Share(a, total)
  {
    var q := a / k as real;
    Quotient(a, k as real);
    assert k as real * (q * total) == (q * k as real) * total;
  }

  // A nonnegative numerator over a larger divisor is smaller.
  lemma QuotientAntitone(a: real, d: real, e: real)
    requires a >= 0.0 && 0.0 < d <= e
    ensures a / e <= a / d
  {
    Quotient(a, e);
    QuotientOrder(0.0, a, e);
    QuotientSelf(e);
    var q := a / e;
    assert q >= 0.0;
    assert q * d <= q * e by {
      if q > 0.0 {
        ProductOrder(d, e, q);
      }
    }
    QuotientBound(q, a, d);
  }

  lemma QuotientSign(a: real, d: real)
    requires d > 0.0
    ensures a < 0.0 <==> a / d < 0.0
  {
    QuotientSelf(d);
    QuotientOrder(0.0, a, d);
  }

  // A ratio in (0, 1] shrinks a positive number, and dividing by it enlarges the number.
  lemma RatioShrinks(t: real, r: real)
    requires t > 0.0 && 0.0 < r <= 1.0
    ensures t * r <= t <= t / r
  {
    ProductOrder(r, 1.0, t);
    assert r * t == t * r && 1.0 * t == t;
    QuotientBound(t, t, r);
  }
}

// Counting the values of a sample that lie at or below a point.
module Counting {
  import opened Sorting

  // How many values lie at or below x.
  function CountAtMost(sample: seq<real>, x: real): (c: nat)
    ensures c <= |sample|
  {
    if sample == [] then 0 else (if sample[0] <= x then 1 else 0) + CountAtMost(sample[1..], x)
  }

  lemma {:induction false} CountConcat(s: seq<real>, t: seq<real>, x: real)
    ensures CountAtMost(s + t, x) == CountAtMost(s, x) + CountAtMost(t, x)
  {
    if s == [] {
      assert s + t == t;
    } else {
      assert (s + t)[1..] == s[1..] + t;
      CountConcat(s[1..], t, x);
    }
  }

  lemma {:induction false} CountAll(s: seq<real>, x: real)
    ensures (forall a | 0 <= a < |s| :: s[a] <= x) <==> CountAtMost(s, x) == |s|
    ensures (forall a | 0 <= a < |s| :: s[a] > x) <==> CountAtMost(s, x) == 0
  {
    if s != [] {
      var rest := s[1..];
      CountAll(rest, x);
      assert forall a | 0 <= a < |rest| :: rest[a] == s[a + 1];
      assert forall a | 1 <= a < |s| :: s[a] == rest[a - 1];
    }
  }

  lemma {:induction false} CountPermutation(s: seq<real>, t: seq<real>, x: real)
    requires multiset(s) == multiset(t)
    ensures CountAtMost(s, x) == CountAtMost(t, x)
  {
    PermutationMembers(s, t);
    if s != [] {
      var rest := s[1..];
      assert s == [s[0]] + rest;
      assert s[0] in s;
      var k :| 0 <= k < |t| && t[k] == s[0];
      RemoveOne(t, k, x);
      MultisetWithout(t, k);
      var others := t[..k] + t[k + 1..];
      assert multiset(s) == multiset([s[0]]) + multiset(rest);
      assert multiset([s[0]]) + multiset(rest) == multiset([s[0]]) + multiset(others);
      assert multiset(rest) == multiset(s) - multiset([s[0]]);
      assert multiset(others) == multiset(t) - multiset([s[0]]);
      CountPermutation(rest, others, x);
    }
  }

  lemma RemoveOne(t: seq<real>, k: nat, x: real)
    requires k < |t|
    ensures CountAtMost(t, x) == (if t[k] <= x then 1 else 0) + CountAtMost(t[..k] + t[k + 1..], x)
  {
    var left, right := t[..k], t[k + 1..];
    assert t == left + ([t[k]] + right);
    CountConcat(left, right, x);
    CountConcat(left, [t[k]] + right, x);
    CountConcat([t[k]], right, x);
  }

  // In an ascending sample the count is the index at which the values pass x.
  lemma {:induction false} CountInSorted(s: seq<real>, x: real, i: nat)
    requires Ascending(s)
    requires i <= |s|
    requires i > 0 ==> s[i - 1] <= x
    requires i < |s| ==> s[i] > x
    ensures CountAtMost(s, x) == i
  {
    if i == 0 {
      CountAll(s, x);
    } else {
      var rest := s[1..];
      assert forall a | 0 <= a < |rest| :: rest[a] == s[a + 1];
      assert s[0] <= x;
      CountInSorted(rest, x, i - 1);
    }
  }
}

// Python's sorted(xs, key=...): a stable ascending sort.
module Sorting {

  ghost predicate SortedBy<T>(xs: seq<T>, key: T -> real) {
    forall a, b | 0 <= a < b < |xs| :: key(xs[a]) <= key(xs[b])
  }

  function SortBy<T>(xs: seq<T>, key: T -> real): (r: seq<T>)
    ensures multiset(r) == multiset(xs)
    ensures SortedBy(r, key)
  {
    if xs == [] then []
    else
      assert xs == [xs[0]] + xs[1..];
      Insert(xs[0], SortBy(xs[1..], key), key)
  }

  // Puts x before the first element that is not smaller, so equal keys keep their order.
  function Insert<T>(x: T, xs: seq<T>, key: T -> real): (r: seq<T>)
    requires SortedBy(xs, key)
    ensures multiset(r) == multiset([x]) + multiset(xs)
    ensures SortedBy(r, key)
  {
    if xs == [] then [x]
    else if key(x) <= key(xs[0]) then
      HeadIsSmallest(xs, key);
      ConsSorted(x, xs, key);
      [x] + xs
    else
      assert xs == [xs[0]] + xs[1..];
      var rest := Insert(x, xs[1..], key);
      HeadIsSmallest(xs, key);
      InsertedMembers(x, xs[1..], rest);
      ConsSorted(xs[0], rest, key);
      [xs[0]] + rest
  }

  lemma HeadIsSmallest<T>(xs: seq<T>, key: T -> real)
    requires xs != [] && SortedBy(xs, key)
    ensures forall y | y in xs :: key(xs[0]) <= key(y)
  {
  }

  lemma ConsSorted<T>(x: T, xs: seq<T>, key: T -> real)
    requires SortedBy(xs, key)
    requires forall y | y in xs :: key(x) <= key(y)
    ensures SortedBy([x] + xs, key)
  {
    var r := [x] + xs;
    forall a, b | 0 <= a < b < |r|
      ensures key(r[a]) <= key(r[b])
    {
      assert r[b] == xs[b - 1] && xs[b - 1] in xs;
      if a > 0 {
        assert r[a] == xs[a - 1];
      }
    }
  }

  lemma InsertedMembers<T>(x: T, xs: seq<T>, r: seq<T>)
    requires multiset(r) == multiset([x]) + multiset(xs)
    ensures forall y | y in r :: y == x || y in xs
  {
    forall y | y in r
      ensures y == x || y in xs
    {
      assert y in multiset(r);
      assert y in multiset([x]) || y in multiset(xs);
    }
  }

  lemma PermutationMembers<T>(xs: seq<T>, ys: seq<T>)
    requires multiset(xs) == multiset(ys)
    ensures |xs| == |ys|
    ensures forall x :: x in xs <==> x in ys
  {
    assert |multiset(xs)| == |xs| && |multiset(ys)| == |ys|;
    forall x
      ensures x in xs <==> x in ys
    {
      assert x in xs <==> x in multiset(xs);
      assert x in ys <==> x in multiset(ys);
    }
  }

  lemma MultisetWithout<T>(xs: seq<T>, k: nat)
    requires k < |xs|
    ensures multiset(xs) == multiset([xs[k]]) + multiset(xs[..k] + xs[k + 1..])
  {
    assert xs == xs[..k] + ([xs[k]] + xs[k + 1..]);
  }

  ghost predicate Distinct<T>(xs: seq<T>) {
    forall a, b | 0 <= a < b < |xs| :: xs[a] != xs[b]
  }

  lemma {:induction false} DistinctMultiplicity<T>(xs: seq<T>)
    ensures Distinct(xs) <==> forall x | x in xs :: multiset(xs)[x] <= 1
  {
    if xs != [] {
      var rest := xs[1..];
      assert xs == [xs[0]] + rest;
      DistinctMultiplicity(rest);
      assert Distinct(xs) <==> Distinct(rest) && xs[0] !in rest by {
        DistinctCons(xs);
      }
      assert xs[0] in rest <==> multiset(rest)[xs[0]] >= 1;
      assert forall x :: multiset(xs)[x] == multiset(rest)[x] + if x == xs[0] then 1 else 0;
      assert forall x | x in rest :: x in xs;
      if xs[0] in rest {
        assert multiset(xs)[xs[0]] >= 2;
      }
    }
  }

  lemma DistinctCons<T>(xs: seq<T>)
    requires xs != []
    ensures Distinct(xs) <==> Distinct(xs[1..]) && xs[0] !in xs[1..]
  {
    var rest := xs[1..];
    assert forall a | 0 <= a < |rest| :: rest[a] == xs[a + 1];
    if Distinct(rest) && xs[0] !in rest {
      forall a, b | 0 <= a < b < |xs|
        ensures xs[a] != xs[b]
      {
        assert xs[b] == rest[b - 1] && rest[b - 1] in rest;
        if a > 0 {
          assert xs[a] == rest[a - 1];
        }
      }
    }
  }

  // A permutation has repetitions only if the original does.
  lemma PermutationDistinct<T>(xs: seq<T>, ys: seq<T>)
    requires multiset(xs) == multiset(ys) && Distinct(xs)
    ensures Distinct(ys)
  {
    PermutationMembers(xs, ys);
    DistinctMultiplicity(xs);
    DistinctMultiplicity(ys);
  }

  ghost function Elements<T>(xs: seq<T>): set<T> {
    set x | x in xs
  }

  lemma {:induction false} DistinctCardinality<T>(xs: seq<T>)
    requires Distinct(xs)
    ensures |Elements(xs)| == |xs|
  {
    if xs != [] {
      var init, last := xs[..|xs| - 1], xs[|xs| - 1];
      DistinctCardinality(init);
      assert Elements(xs) == Elements(init) + {last} by {
        assert xs == init + [last];
      }
      assert last !in init;
    }
  }

  function Identity(): real -> real {
    (x: real) => x
  }

  ghost predicate StrictlyAscending(xs: seq<real>) {
    forall a, b | 0 <= a < b < |xs| :: xs[a] < xs[b]
  }

  ghost predicate Ascending(xs: seq<real>) {
    forall a, b | 0 <= a < b < |xs| :: xs[a] <= xs[b]
  }

  // sorted(xs) for plain numbers.
  function Sorted(xs: seq<real>): (r: seq<real>)
    ensures multiset(r) == multiset(xs) && |r| == |xs|
    ensures Ascending(r)
  {
    var r := SortBy(xs, Identity());
    PermutationMembers(xs, r);
    assert forall a, b | 0 <= a < b < |r| :: Identity()(r[a]) <= Identity()(r[b]);
    r
  }

  // sorted(set(xs)): the distinct values of xs, ascending.
  function SortedValues(xs: seq<real>): (r: seq<real>)
    ensures StrictlyAscending(r)
    ensures forall x :: x in r <==> x in xs
  {
    PermutationMembers(xs, Sorted(xs));
    WithoutRepeats(Sorted(xs))
  }

  function WithoutRepeats(xs: seq<real>): (r: seq<real>)
    requires Ascending(xs)
    ensures StrictlyAscending(r)
    ensures forall x :: x in r <==> x in xs
  {
    if |xs| <= 1 then xs
    else
      assert xs == [xs[0]] + xs[1..];
      var rest := WithoutRepeats(xs[1..]);
      if xs[0] == xs[1] then rest
      else
        ConsAscending(xs[0], rest);
        [xs[0]] + rest
  }

  lemma ConsAscending(x: real, xs: seq<real>)
    requires StrictlyAscending(xs)
    requires forall y | y in xs :: x < y
    ensures StrictlyAscending([x] + xs)
  {
    var r := [x] + xs;
    forall a, b | 0 <= a < b < |r|
      ensures r[a] < r[b]
    {
      assert r[b] == xs[b - 1] && xs[b - 1] in xs;
      if a > 0 {
        assert r[a] == xs[a - 1];
      }
    }
  }

  lemma AscendingTail(xs: seq<real>)
    requires xs != [] && StrictlyAscending(xs)
    ensures StrictlyAscending(xs[1..])
    ensures forall y :: y in xs[1..] <==> y in xs && y != xs[0]
    ensures forall y | y in xs :: xs[0] <= y
  {
    var rest := xs[1..];
    assert xs == [xs[0]] + rest;
    assert forall a | 0 <= a < |rest| :: rest[a] == xs[a + 1];
  }

  // Two ascending sequences with the same values are the same sequence.
  lemma {:induction false} AscendingUnique(xs: seq<real>, ys: seq<real>)
    requires StrictlyAscending(xs) && StrictlyAscending(ys)
    requires forall x :: x in xs <==> x in ys
    ensures xs == ys
  {
    assert xs != [] ==> xs[0] in xs;
    assert ys != [] ==> ys[0] in ys;
    if xs == [] {
    } else {
      AscendingTail(xs);
      AscendingTail(ys);
      AscendingUnique(xs[1..], ys[1..]);
      assert xs == [xs[0]] + xs[1..] && ys == [ys[0]] + ys[1..];
    }
  }
}
