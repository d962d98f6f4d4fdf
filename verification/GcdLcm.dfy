/** Greatest common divisor and least common multiple (tools/parted/parted_linux.go). */
module GcdLcm {
  import opened Machine
  import opened Options

  ghost predicate Divides(d: int, n: int) {
    exists q: int :: n == d * q
  }

  ghost predicate DividesAll(ds: seq<int>, m: int) {
    forall i :: 0 <= i < |ds| ==> Divides(ds[i], m)
  }

  predicate AllPositive(xs: seq<int>) {
    forall i :: 0 <= i < |xs| ==> xs[i] > 0
  }

  /** The Euclidean recursion that the loop in GCD unrolls. */
  function Gcd(a: nat, b: nat): nat
    decreases b
  {
    if b == 0 then a else Gcd(b, a % b)
  }

  lemma Multiple(d: int, q: int)
    ensures Divides(d, d * q)
  {
  }

  lemma DividesSum(d: int, x: int, y: int, k: int)
    requires Divides(d, x) && Divides(d, y)
    ensures Divides(d, x + k * y)
  {
    var p :| x == d * p;
    var q :| y == d * q;
    Factor(d, p, q, k);
    Multiple(d, p + k * q);
  }

  lemma Factor(d: int, p: int, q: int, k: int)
    ensures d * p + k * (d * q) == d * (p + k * q)
  {
    assert k * (d * q) == d * (k * q);
  }

  lemma DividesTransitive(a: int, b: int, c: int)
    requires Divides(a, b) && Divides(b, c)
    ensures Divides(a, c)
  {
    var p :| b == a * p;
    var q :| c == b * q;
    assert (a * p) * q == a * (p * q);
    Multiple(a, p * q);
  }

  lemma BezoutStep(b: int, q: int, r: int, x: int, y: int)
    ensures x * b + y * r == y * (q * b + r) + (x - y * q) * b
  {
    assert y * (q * b + r) == y * (q * b) + y * r;
    assert (x - y * q) * b == x * b - (y * q) * b;
    assert (y * q) * b == y * (q * b);
  }

  lemma Division(a: int, b: int) returns (q: int, r: int)
    requires b > 0
    ensures a == q * b + r && 0 <= r < b
    ensures r == a % b && q == a / b
  {
    q, r := a / b, a % b;
  }

  /** Gcd is an integer combination of its arguments and divides both. */
  lemma {:induction false} Bezout(a: nat, b: nat) returns (x: int, y: int)
    ensures Gcd(a, b) == x * a + y * b
    ensures Divides(Gcd(a, b), a) && Divides(Gcd(a, b), b)
    decreases b
  {
    if b == 0 {
      x, y := 1, 0;
      Multiple(a, 1);
      Multiple(a, 0);
    } else {
      var q, r := Division(a, b);
      var g := Gcd(b, r);
      var x', y' := Bezout(b, r);
      x, y := y', x' - y' * q;
      BezoutStep(b, q, r, x', y');
      DividesSum(g, r, b, q);
    }
  }

  lemma PositiveFactors(d: int, q: int)
    requires d * q > 0
    ensures d <= d * q
    ensures d > 0 ==> q > 0
    ensures d != 0 && q != 0
  {
    if d > 0 {
      assert q > 0 by {
        if q <= 0 { assert false; }
      }
      assert d * (q - 1) >= 0;
    }
  }

  /** For positive arguments Gcd is the common divisor that every common divisor divides, so the greatest. */
  lemma GcdIsGreatest(a: nat, b: nat)
    requires a > 0 && b > 0
    ensures Gcd(a, b) > 0
    ensures forall d: int :: Divides(d, a) && Divides(d, b) <==> Divides(d, Gcd(a, b))
    ensures forall d: int :: Divides(d, a) && Divides(d, b) ==> d <= Gcd(a, b)
  {
    var g := Gcd(a, b);
    var x, y := Bezout(a, b);
    var k :| a == g * k;
    PositiveFactors(g, k);
    forall d: int
      ensures Divides(d, a) && Divides(d, b) <==> Divides(d, g)
      ensures Divides(d, a) && Divides(d, b) ==> d <= g
    {
      if Divides(d, a) && Divides(d, b) {
        Multiple(d, 0);
        DividesSum(d, 0, a, x);
        DividesSum(d, x * a, b, y);
        var q :| g == d * q;
        PositiveFactors(d, q);
      }
      if Divides(d, g) {
        DividesTransitive(d, g, a);
        DividesTransitive(d, g, b);
      }
    }
  }

  /** Least common multiple of two positive numbers: the quotient that LCM computes. */
  function Lcm(a: nat, b: nat): nat
    requires a > 0 && b > 0
  {
    GcdIsGreatest(a, b);
    a * b / Gcd(a, b)
  }

  lemma LcmFactors(a: nat, b: nat) returns (a': int, b': int)
    requires a > 0 && b > 0
    ensures Gcd(a, b) > 0 && a' > 0 && b' > 0
    ensures Lcm(a, b) == a * b' == b * a' > 0
    ensures a * b == Gcd(a, b) * Lcm(a, b)
    ensures Lcm(a, b) <= a * b
  {
    var g := Gcd(a, b);
    GcdIsGreatest(a, b);
    assert Divides(g, a) && Divides(g, b) by { var x, y := Bezout(a, b); }
    a', b' := Cofactors(a, b, g);
    hide Gcd, Divides;
    assert a * b / g == a * b';
  }

  lemma Cofactors(a: nat, b: nat, g: nat) returns (a': int, b': int)
    requires a > 0 && b > 0 && g > 0 && Divides(g, a) && Divides(g, b)
    ensures a' > 0 && b' > 0 && a == g * a' && b == g * b'
    ensures a * b' == b * a' > 0 && a * b == g * (a * b')
    ensures a * b / g == a * b' <= a * b
  {
    a' :| a == g * a';
    b' :| b == g * b';
    PositiveFactors(g, a');
    PositiveFactors(g, b');
    Commute(a, b', g);
    Commute(b, a', g);
    Cancel(g, a * b', b * a');
    PositiveProduct(a, b');
    QuotientOfProduct(g, a * b');
    PositiveFactors(a * b', g);
  }

  lemma Commute(a: int, b': int, g: int)
    ensures a * (g * b') == g * (a * b') == (a * b') * g
  {
  }

  lemma PositiveProduct(x: int, y: int)
    requires x > 0 && y > 0
    ensures x * y > 0
  {
  }

  lemma QuotientOfProduct(g: int, l: int)
    requires g > 0
    ensures g * l / g == l
  {
    var q, r := Division(g * l, g);
    SmallMultiple(g, l - q, r) by {
      assert g * (l - q) == g * l - q * g;
    }
  }

  lemma SmallMultiple(g: int, k: int, r: int)
    requires g > 0 && g * k == r && 0 <= r < g
    ensures k == 0
  {
    if k > 0 { PositiveFactors(g, k); }
    if k < 0 { assert g * (-k) == -r; PositiveFactors(g, -k); }
  }

  /** A number is a common multiple exactly when it is a multiple of Lcm. */
  lemma LcmIsLeast(a: nat, b: nat)
    requires a > 0 && b > 0
    ensures 0 < Lcm(a, b) <= a * b
    ensures forall m: int :: Divides(a, m) && Divides(b, m) <==> Divides(Lcm(a, b), m)
  {
    var l := Lcm(a, b);
    var a', b' := LcmFactors(a, b);
    var x, y := Bezout(a, b);
    Multiple(a, b');
    Multiple(b, a');
    forall m: int
      ensures Divides(a, m) && Divides(b, m) <==> Divides(l, m)
    {
      if Divides(a, m) && Divides(b, m) {
        CommonMultiple(a, b, m, x, y, Gcd(a, b), l);
      }
      if Divides(l, m) {
        DividesTransitive(a, l, m);
        DividesTransitive(b, l, m);
      }
    }
  }

  lemma CommonMultiple(a: int, b: int, m: int, x: int, y: int, g: int, l: int)
    requires g == x * a + y * b && g > 0 && a * b == g * l
    requires Divides(a, m) && Divides(b, m)
    ensures Divides(l, m)
  {
    var j :| m == a * j;
    var k :| m == b * k;
    var c := x * k + y * j;
    Distribute(x * a, y * b, m);
    Rearrange(x, a, b, k);
    Rearrange(y, b, a, j);
    Swap(a, b);
    Collect(a * b, x * k, y * j);
    Regroup(g, l, c);
    Cancel(g, m, l * c);
    Multiple(l, c);
  }

  lemma Distribute(p: int, q: int, m: int)
    ensures (p + q) * m == p * m + q * m
  {
  }

  lemma Collect(n: int, u: int, v: int)
    ensures n * u + n * v == n * (u + v)
  {
  }

  lemma Swap(a: int, b: int)
    ensures a * b == b * a
  {
  }

  lemma Regroup(g: int, l: int, c: int)
    ensures (g * l) * c == g * (l * c)
  {
  }

  lemma Rearrange(x: int, a: int, b: int, k: int)
    ensures (x * a) * (b * k) == (a * b) * (x * k)
  {
    Regroup(x, a, b * k);
    Regroup(a, b, k);
    Swap(x, a * b * k);
    Regroup(a * b, k, x);
    Swap(k, x);
  }

  lemma Cancel(g: int, x: int, y: int)
    requires g > 0 && g * x == g * y
    ensures x == y
  {
    assert g * (x - y) == 0;
  }

  lemma RemainderShrinks(a: int, b: int)
    requires b != 0
    ensures Absolute(TruncRem(a, b)) < Absolute(b)
    ensures a >= 0 && b > 0 ==> TruncRem(a, b) == a % b
  {
  }

  /** What the loop computes on any arguments. */
  function Euclid(a: int, b: int): int
    decreases Absolute(b)
  {
    if b == 0 then a
    else
      RemainderShrinks(a, b);
      Euclid(b, TruncRem(a, b))
  }

  lemma {:induction false} EuclidIsGcd(a: nat, b: nat)
    ensures Euclid(a, b) == Gcd(a, b)
    decreases b
  {
    if b > 0 {
      RemainderShrinks(a, b);
      EuclidIsGcd(b, a % b);
    }
  }

  /** Euclid's loop, with the truncating remainder of the source. */
  method GCD(a0: int, b0: int) returns (r: int)
    ensures r == Euclid(a0, b0)
    ensures a0 > 0 && b0 > 0 ==> r == Gcd(a0, b0) > 0
    ensures a0 > 0 && b0 > 0 ==> forall d: int :: Divides(d, a0) && Divides(d, b0) <==> Divides(d, r)
    ensures a0 > 0 && b0 > 0 ==> forall d: int :: Divides(d, a0) && Divides(d, b0) ==> d <= r
  {
    var a, b := a0, b0;
    while b != 0
      invariant Euclid(a, b) == Euclid(a0, b0)
      decreases Absolute(b)
    {
      RemainderShrinks(a, b);
      var t := b;
      b := TruncRem(a, b);
      a := t;
    }
    if a0 > 0 && b0 > 0 {
      GcdIsGreatest(a0, b0);
      EuclidIsGcd(a0, b0);
    }
    return a;
  }

  /** The least common multiple of a list of positive numbers, folded from the left as LCM does. */
  function LcmAll(acc: nat, rest: seq<int>): nat
    requires acc > 0 && AllPositive(rest)
    decreases |rest|
  {
    if rest == [] then acc
    else
      LcmIsLeast(acc, rest[0]);
      LcmAll(Lcm(acc, rest[0]), rest[1..])
  }

  /** No product on the way leaves the range of a 64-bit int. */
  predicate ProductsFit(acc: nat, rest: seq<int>)
    requires acc > 0 && AllPositive(rest)
    decreases |rest|
  {
    rest == [] ||
    (LcmIsLeast(acc, rest[0]); acc * rest[0] < TWO_63 && ProductsFit(Lcm(acc, rest[0]), rest[1..]))
  }

  /** A number is a multiple of every argument exactly when it is a multiple of LcmAll. */
  lemma {:induction false} LcmAllIsLeast(acc: nat, rest: seq<int>)
    requires acc > 0 && AllPositive(rest)
    ensures LcmAll(acc, rest) > 0
    ensures forall m: int :: Divides(acc, m) && DividesAll(rest, m) <==> Divides(LcmAll(acc, rest), m)
    decreases |rest|
  {
    if rest != [] {
      LcmIsLeast(acc, rest[0]);
      LcmAllIsLeast(Lcm(acc, rest[0]), rest[1..]);
      forall m: int ensures DividesAll(rest, m) <==> Divides(rest[0], m) && DividesAll(rest[1..], m) {
        DividesAllCons(rest, m);
      }
    }
  }

  lemma DividesAllCons(ds: seq<int>, m: int)
    requires ds != []
    ensures DividesAll(ds, m) <==> Divides(ds[0], m) && DividesAll(ds[1..], m)
  {
    if Divides(ds[0], m) && DividesAll(ds[1..], m) {
      forall i | 0 <= i < |ds| ensures Divides(ds[i], m) {
        assert i > 0 ==> ds[i] == ds[1..][i - 1];
      }
    }
  }

  lemma {:induction false} LcmAllSnoc(acc: nat, rest: seq<int>, x: int)
    requires acc > 0 && x > 0 && AllPositive(rest)
    ensures LcmAll(acc, rest) > 0
    ensures LcmAll(acc, rest + [x]) == Lcm(LcmAll(acc, rest), x)
    ensures ProductsFit(acc, rest + [x]) <==> ProductsFit(acc, rest) && LcmAll(acc, rest) * x < TWO_63
    decreases |rest|
  {
    if rest == [] {
      assert rest + [x] == [x];
      LcmIsLeast(acc, x);
    } else {
      LcmIsLeast(acc, rest[0]);
      assert (rest + [x])[1..] == rest[1..] + [x];
      LcmAllSnoc(Lcm(acc, rest[0]), rest[1..], x);
    }
  }

  lemma {:induction false} FitsPrefix(acc: nat, xs: seq<int>, i: nat)
    requires acc > 0 && AllPositive(xs) && i <= |xs|
    requires ProductsFit(acc, xs)
    ensures ProductsFit(acc, xs[..i])
    decreases |xs|
  {
    if i > 0 {
      LcmIsLeast(acc, xs[0]);
      assert xs[..i][1..] == xs[1..][..i - 1];
      FitsPrefix(Lcm(acc, xs[0]), xs[1..], i - 1);
    }
  }

  /** The arguments for which LCM promises something: positive, with every product inside 64 bits. */
  predicate LcmDefined(args: seq<int>) {
    |args| >= 2 && AllPositive(args) && ProductsFit(args[0], args[1..])
  }

  lemma PairDefined(a: int, b: int)
    ensures LcmDefined([a, b]) <==> a > 0 && b > 0 && a * b < TWO_63
    ensures LcmDefined([a, b]) ==> Lcm(a, b) > 0 && LcmAll(a, [a, b][1..]) == Lcm(a, b)
  {
    var args := [a, b];
    assert args[1..] == [b];
    assert args[0] == a && args[1] == b;
    if a > 0 && b > 0 {
      LcmIsLeast(a, b);
      assert AllPositive([b]) && [b][1..] == [];
      assert ProductsFit(a, [b]) <==> a * b < TWO_63 && ProductsFit(Lcm(a, b), []);
    }
  }

  lemma PairQuotient(a: int, b: int)
    requires a > 0 && b > 0 && a * b < TWO_63
    ensures Gcd(a, b) > 0 && ToInt64(TruncDivAny(ToInt64(a * b), Gcd(a, b))) == Lcm(a, b)
  {
    var a', b' := LcmFactors(a, b);
    InRangeIsUnchanged(a * b);
    InRangeIsUnchanged(Lcm(a, b));
  }

  lemma WrapIsFarBelow(p: int)
    requires p >= TWO_63
    ensures -TWO_63 <= ToInt64(p) < TWO_63 && ToInt64(p) <= p - TWO_64
  {
  }

  lemma QuotientBounds(n: int, g: int)
    requires n >= 0 && g > 0
    ensures 0 <= n / g <= n && (n / g) * g <= n
  {
    var q, m := Division(n, g);
    if q > 0 {
      PositiveProduct(q, g);
      PositiveFactors(q, g);
    }
  }

  /** Truncating division stays on the near side of its dividend. */
  lemma TruncatedQuotient(w: int, g: int)
    requires g > 0 && -TWO_63 <= w < TWO_63
    ensures var r := TruncDivAny(w, g); r * g < w + g && -TWO_63 <= r < TWO_63
  {
    var n := if w >= 0 then w else -w;
    QuotientBounds(n, g);
    var q, m := Division(n, g);
    var r := TruncDivAny(w, g);
    assert r == if w >= 0 then q else -q;
    NegatedProduct(q, g);
  }

  lemma NegatedProduct(q: int, g: int)
    ensures (-q) * g == -(q * g)
  {
  }

  lemma WrongQuotient(p: int, g: int, l: int)
    requires p >= TWO_63 && p == g * l && 0 < g < TWO_63
    ensures ToInt64(TruncDivAny(ToInt64(p), g)) != l
  {
    WrapIsFarBelow(p);
    var w := ToInt64(p);
    TruncatedQuotient(w, g);
    var r := TruncDivAny(w, g);
    assert ToInt64(r) == r;
    hide ToInt64, TruncDivAny;
    assert r * g < g * l;
  }

  /** For two positive 64-bit arguments the result is the least common multiple exactly when the product fits. */
  lemma PairExactIff(a: int, b: int)
    requires 0 < a < TWO_63 && 0 < b < TWO_63
    ensures Gcd(a, b) > 0
    ensures ToInt64(TruncDivAny(ToInt64(a * b), Gcd(a, b))) == Lcm(a, b) <==> a * b < TWO_63
  {
    if a * b < TWO_63 {
      PairQuotient(a, b);
    } else {
      var g, l := Gcd(a, b), Lcm(a, b);
      GcdIsGreatest(a, b);
      var a', b' := LcmFactors(a, b);
      assert g <= a by {
        var x, y := Bezout(a, b);
        var k :| a == g * k;
        PositiveFactors(g, k);
      }
      WrongQuotient(a * b, g, l);
    }
  }

  /** One more argument: what the accumulated result is and that its step is defined. */
  lemma NextArgument(args: seq<int>, i: nat, acc: int)
    requires LcmDefined(args) && 1 <= i < |args|
    requires i == 1 || acc == LcmAll(args[0], args[1..i])
    requires i == 1 ==> acc == args[0]
    ensures acc > 0 && LcmDefined([acc, args[i]])
    ensures Lcm(acc, args[i]) > 0 && Lcm(acc, args[i]) == LcmAll(args[0], args[1..i + 1])
  {
    var head, x := args[1..i], args[i];
    assert args[1..][..i] == head + [x] == args[1..i + 1];
    FitsPrefix(args[0], args[1..], i);
    LcmAllSnoc(args[0], head, x);
    LcmIsLeast(acc, x);
    PairDefined(acc, x);
  }

  lemma LcmMeaning(args: seq<int>, r: int)
    requires LcmDefined(args) && r == LcmAll(args[0], args[1..])
    ensures forall m: int :: DividesAll(args, m) <==> Divides(r, m)
  {
    LcmAllIsLeast(args[0], args[1..]);
    forall m: int ensures DividesAll(args, m) <==> Divides(r, m) {
      DividesAllCons(args, m);
    }
  }

  /** The quotient for two arguments, None for a division by zero. */
  function PairResult(a: int, b: int): Option<int> {
    if Euclid(a, b) == 0 then None else Some(ToInt64(TruncDivAny(ToInt64(a * b), Euclid(a, b))))
  }

  /** The left fold over all arguments, whatever wraps on the way. */
  function FoldResult(acc: Option<int>, rest: seq<int>): Option<int>
    decreases |rest|
  {
    if acc.None? || rest == [] then acc
    else FoldResult(PairResult(acc.value, rest[0]), rest[1..])
  }

  /** Variadic LCM on 64-bit ints. It divides by GCD, so it can only fail on a zero divisor. */
  method LCM(a: int, b: int, integers: seq<int>) returns (ok: bool, result: int)
    ensures FoldResult(PairResult(a, b), integers) == if ok then Some(result) else None
    ensures LcmDefined([a, b] + integers) ==> ok && result == LcmAll(a, ([a, b] + integers)[1..])
    ensures LcmDefined([a, b] + integers) ==>
      forall m: int :: DividesAll([a, b] + integers, m) <==> Divides(result, m)
    ensures integers == [] && 0 < a < TWO_63 && 0 < b < TWO_63 ==>
      ok && (result == Lcm(a, b) <==> a * b < TWO_63)
    decreases |integers|
  {
    hide LcmAll, TruncDivAny, ToInt64, Euclid, Divides, DividesAll, Lcm, ProductsFit;
    ghost var args := [a, b] + integers;
    ghost var defined := LcmDefined(args);
    var g := GCD(a, b);
    assert integers[0..] == integers;
    if defined {
      assert args[0] == a && args[1] == b;
      NextArgument(args, 1, a);
      PairDefined(a, b);
      PairQuotient(a, b);
    }
    if 0 < a < TWO_63 && 0 < b < TWO_63 {
      PairExactIff(a, b);
    }
    if g == 0 {
      return false, 0;
    }
    result := ToInt64(TruncDivAny(ToInt64(a * b), g));
    ghost var pair := result;
    var i := 0;
    while i < |integers|
      invariant 0 <= i <= |integers|
      invariant defined ==> result == LcmAll(a, args[1..i + 2])
      invariant i == 0 ==> result == pair
      invariant FoldResult(Some(result), integers[i..]) == FoldResult(PairResult(a, b), integers)
    {
      assert integers[i..][1..] == integers[i + 1..];
      ghost var before := result;
      if defined {
        assert integers[i] == args[i + 2];
        NextArgument(args, i + 2, before);
        PairDefined(before, integers[i]);
        assert [before, integers[i]] + [] == [before, integers[i]];
      }
      ok, result := LCM(result, integers[i], []);
      if !ok {
        return false, 0;
      }
      i := i + 1;
    }
    ok := true;
    assert integers[i..] == [];
    if defined {
      assert args[1..i + 2] == args[1..];
      LcmMeaning(args, result);
    }
  }

  /** The alignment grain of the partition planner. */
  const GRAIN: nat := 34816

  lemma GrainIsLcm()
    ensures Lcm(34, 2048) == GRAIN
    ensures LcmDefined([34, 2048]) && LcmAll(34, [34, 2048][1..]) == GRAIN
  {
    assert Gcd(34, 2048) == 2 by {
      assert Gcd(34, 2048) == Gcd(2048, 34) == Gcd(34, 8) == Gcd(8, 2) == Gcd(2, 0) == 2;
    }
    assert [34, 2048][1..] == [2048];
    assert [2048][1..] == [];
    LcmIsLeast(34, 2048);
    assert ProductsFit(GRAIN, []);
  }
}
