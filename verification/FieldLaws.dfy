/** Laws of arithmetic modulo any q, and, for prime q, cancellation and Fermat's little
    theorem. */
module FieldLaws {
  import opened Field

  // ---- division ----

  lemma MultipleGrows(k: int, q: Modulus)
    requires k > 0
    ensures Multiple(k, q) >= q
  {
  }

  /** Quotient and remainder are unique. */
  lemma DivisionUnique(x: int, k: int, r: int, q: Modulus)
    requires x == Multiple(k, q) + r && 0 <= r < q
    ensures x / q == k && x % q == r
  {
    var j := x / q;
    assert x == Multiple(j, q) + x % q;
    assert Multiple(k - j, q) == Multiple(k, q) - Multiple(j, q);
    assert Multiple(j - k, q) == Multiple(j, q) - Multiple(k, q);
    if k > j { MultipleGrows(k - j, q); }
    if j > k { MultipleGrows(j - k, q); }
  }

  function Multiple(k: int, d: int): int {
    k * d
  }

  // ---- ring laws ----

  lemma ModShift(q: Modulus, z: int, k: int)
    ensures (z + Multiple(k, q)) % q == z % q
  {
    var j := z / q;
    assert Multiple(j + k, q) == Multiple(j, q) + Multiple(k, q);
    DivisionUnique(z + Multiple(k, q), j + k, z % q, q);
  }

  lemma ModMul(q: Modulus, x: int, y: int)
    ensures MulIn(q, x % q, y) == MulIn(q, x, y)
  {
    var j := x / q;
    assert x == j * q + x % q;
    assert x * y == (x % q) * y + Multiple(j * y, q);
    ModShift(q, (x % q) * y, j * y);
  }

  lemma ModAdd(q: Modulus, x: int, y: int)
    ensures AddIn(q, x % q, y % q) == AddIn(q, x, y)
  {
    var j, k := x / q, y / q;
    assert x + y == (x % q + y % q) + Multiple(j + k, q);
    ModShift(q, x % q + y % q, j + k);
  }

  lemma ModSmall(q: Modulus, x: int)
    requires 0 <= x < q
    ensures x % q == x
  {
    DivisionUnique(x, 0, x, q);
  }

  lemma ModTwice(q: Modulus, x: int)
    ensures (x % q) % q == x % q
  {
    ModSmall(q, x % q);
  }

  lemma AddCases(a: Fr, b: Fr)
    ensures Add(a, b) == if a + b >= R then a + b - R else a + b
  {
  }

  lemma AddAssociates(a: Fr, b: Fr, c: Fr)
    ensures Add(Add(a, b), c) == Add(a, Add(b, c))
  {
    hide Add;
    AddCases(a, b);
    AddCases(b, c);
    AddCases(Add(a, b), c);
    AddCases(a, Add(b, c));
  }

  lemma MulCommutes(q: Modulus, a: int, b: int)
    ensures MulIn(q, a, b) == MulIn(q, b, a)
  {
    assert a * b == b * a;
  }

  lemma MulAssociates(q: Modulus, a: int, b: int, c: int)
    ensures MulIn(q, MulIn(q, a, b), c) == MulIn(q, a, MulIn(q, b, c))
  {
    ModMul(q, a * b, c);
    ModMul(q, b * c, a);
    assert (a * b) * c == (b * c) * a;
    MulCommutes(q, a, MulIn(q, b, c));
  }

  lemma MulOne(q: Modulus, a: int)
    requires 0 <= a < q
    ensures MulIn(q, 1, a) == a && MulIn(q, a, 1) == a
  {
    ModSmall(q, a);
  }

  // ---- powers ----

  function Power(q: Modulus, x: int, n: nat): (y: int)
    ensures 0 <= y < q
  {
    if n == 0 then 1 else MulIn(q, x, Power(q, x, n - 1))
  }

  lemma {:induction false} PowerAdds(q: Modulus, x: int, m: nat, n: nat)
    ensures Power(q, x, m + n) == MulIn(q, Power(q, x, m), Power(q, x, n))
  {
    hide MulIn;
    if m == 0 {
      MulOne(q, Power(q, x, n));
    } else {
      PowerAdds(q, x, m - 1, n);
      MulAssociates(q, x, Power(q, x, m - 1), Power(q, x, n));
    }
  }

  lemma {:induction false} PowerOfOne(q: Modulus, n: nat)
    ensures Power(q, 1, n) == 1
  {
    hide MulIn;
    if n > 0 {
      PowerOfOne(q, n - 1);
      MulOne(q, 1);
    }
  }

  lemma {:induction false} PowerOfPower(q: Modulus, x: int, m: nat, n: nat)
    ensures Power(q, x, m * n) == Power(q, Power(q, x, m), n)
  {
    hide MulIn;
    if n > 0 {
      PowerOfPower(q, x, m, n - 1);
      assert m * n == m + m * (n - 1);
      PowerAdds(q, x, m, m * (n - 1));
    } else {
      assert m * n == 0;
    }
  }

  // ---- primality ----

  ghost predicate Divides(d: int, n: int) {
    exists k :: Multiple(k, d) == n
  }

  ghost predicate IsPrime(p: int) {
    2 <= p && forall d :: 2 <= d < p ==> !Divides(d, p)
  }

  /** A prime modulus has no zero divisors. */
  lemma {:induction false} NoZeroDivisors(q: Modulus, a: nat, x: int)
    requires IsPrime(q) && 0 < a < q && MulIn(q, a, x) == 0
    ensures x % q == 0
    decreases a
  {
    if a > 1 {
      var j, m := q / a, q % a;
      assert q == j * a + m;
      if m == 0 {
        assert Multiple(j, a) == q;
        assert Divides(a, q);
      }
      assert 0 < m < a;
      var k := (a * x) / q;
      assert a * x == k * q;
      assert m * x == q * x - j * (a * x);
      assert j * (a * x) == (j * k) * q;
      assert m * x == 0 + Multiple(x - j * k, q);
      ModShift(q, 0, x - j * k);
      ModSmall(q, 0);
      NoZeroDivisors(q, m, x);
    }
  }

  lemma NonzeroProduct(q: Modulus, a: int, b: int)
    requires IsPrime(q) && 0 < a < q && 0 < b < q
    ensures MulIn(q, a, b) != 0
  {
    hide MulIn;
    if MulIn(q, a, b) == 0 {
      NoZeroDivisors(q, a, b);
      ModSmall(q, b);
    }
  }

  /** A nonzero factor cancels: a multiple of q cannot separate two field elements. */
  lemma FactorCancels(q: Modulus, a: nat, d: int, k: int)
    requires IsPrime(q) && 0 < a < q && 0 < d + q && d < q
    requires a * d == Multiple(k, q)
    ensures d == 0
  {
    ModShift(q, 0, k);
    ModSmall(q, 0);
    NoZeroDivisors(q, a, d);
    var j := d / q;
    assert d == Multiple(j, q);
    if j > 0 { MultipleGrows(j, q); }
    if j < 0 { MultipleGrows(-j, q); }
  }

  // ---- Fermat's little theorem ----

  function Prod(q: Modulus, s: seq<int>): (y: int)
    ensures 0 <= y < q
  {
    if s == [] then 1 else MulIn(q, Prod(q, s[..|s| - 1]), s[|s| - 1])
  }

  lemma {:induction false} ProdAppend(q: Modulus, s: seq<int>, t: seq<int>)
    ensures Prod(q, s + t) == MulIn(q, Prod(q, s), Prod(q, t))
  {
    hide MulIn;
    if t == [] {
      assert s + t == s;
      MulOne(q, Prod(q, s));
    } else {
      var k := |t| - 1;
      assert (s + t)[..|s + t| - 1] == s + t[..k];
      ProdAppend(q, s, t[..k]);
      MulAssociates(q, Prod(q, s), Prod(q, t[..k]), t[k]);
    }
  }

  function UpTo(n: nat): (s: seq<int>)
    ensures |s| == n && forall i :: 0 <= i < n ==> s[i] == i + 1
  {
    seq(n, i requires 0 <= i < n => i + 1)
  }

  lemma {:induction false} ProdNonzero(q: Modulus, n: nat)
    requires IsPrime(q) && n < q
    ensures Prod(q, UpTo(n)) != 0
  {
    hide MulIn;
    if n > 0 {
      ProdNonzero(q, n - 1);
      assert UpTo(n)[..n - 1] == UpTo(n - 1);
      NonzeroProduct(q, Prod(q, UpTo(n - 1)), n);
    }
  }

  function Times(q: Modulus, a: int, s: seq<int>): (t: seq<int>)
    ensures |t| == |s| && forall i :: 0 <= i < |s| ==> t[i] == MulIn(q, a, s[i])
  {
    seq(|s|, i requires 0 <= i < |s| => MulIn(q, a, s[i]))
  }

  lemma {:induction false} ProdTimes(q: Modulus, a: int, s: seq<int>)
    ensures Prod(q, Times(q, a, s)) == MulIn(q, Power(q, a, |s|), Prod(q, s))
  {
    hide MulIn;
    if s == [] {
      MulOne(q, 1);
    } else {
      var k := |s| - 1;
      var rest := s[..k];
      ProdTimes(q, a, rest);
      assert Times(q, a, s)[..k] == Times(q, a, rest);
      var m, n, x := Power(q, a, k), Prod(q, rest), s[k];
      // (m n) (a x) == (a m) (n x)
      MulAssociates(q, m, n, MulIn(q, a, x));
      MulAssociates(q, n, a, x);
      MulCommutes(q, n, a);
      MulAssociates(q, a, n, x);
      MulAssociates(q, m, a, MulIn(q, n, x));
      MulCommutes(q, m, a);
    }
  }

  ghost predicate Rearranges(s: seq<int>, n: nat) {
    && |s| == n
    && (forall i :: 0 <= i < n ==> 1 <= s[i] <= n)
    && forall i, j :: 0 <= i < j < n ==> s[i] != s[j]
  }

  function Elements(s: seq<int>): set<int> {
    set i | 0 <= i < |s| :: s[i]
  }

  lemma {:induction false} DistinctCount(s: seq<int>)
    requires forall i, j :: 0 <= i < j < |s| ==> s[i] != s[j]
    ensures |Elements(s)| == |s|
  {
    if s == [] {
      assert Elements(s) == {};
    } else {
      var k := |s| - 1;
      DistinctCount(s[..k]);
      assert Elements(s) == Elements(s[..k]) + {s[k]};
    }
  }

  ghost function Range(n: nat): (r: set<int>)
    ensures |r| == n && forall i :: i in r <==> 1 <= i <= n
  {
    if n == 0 then {} else Range(n - 1) + {n}
  }

  lemma Fewer(a: set<int>, b: set<int>)
    requires a <= b
    ensures |a| <= |b|
  {
    assert b == a + (b - a);
  }

  /** A rearrangement of 1..n contains n. */
  lemma FindTop(s: seq<int>, n: nat) returns (i: nat)
    requires n > 0 && Rearranges(s, n)
    ensures i < n && s[i] == n
  {
    if n as int !in Elements(s) {
      DistinctCount(s);
      Fewer(Elements(s), Range(n - 1));
      assert false;
    }
    i :| 0 <= i < n && s[i] == n;
  }

  lemma RemoveTop(s: seq<int>, n: nat, i: nat)
    requires Rearranges(s, n) && i < n && s[i] == n
    ensures Rearranges(s[..i] + s[i + 1..], n - 1)
  {
    var t := s[..i] + s[i + 1..];
    assert forall k :: 0 <= k < n - 1 ==> t[k] == if k < i then s[k] else s[k + 1];
  }

  /** A factor may move to the end. */
  lemma ProdMove(q: Modulus, a: seq<int>, x: int, b: seq<int>)
    requires 0 <= x < q
    ensures Prod(q, a + [x] + b) == MulIn(q, Prod(q, a + b), x)
  {
    hide MulIn;
    ProdAppend(q, a, [x]);
    ProdAppend(q, a + [x], b);
    ProdAppend(q, a, b);
    assert [x][..0] == [];
    MulOne(q, x);
    MulAssociates(q, Prod(q, a), x, Prod(q, b));
    MulCommutes(q, x, Prod(q, b));
    MulAssociates(q, Prod(q, a), Prod(q, b), x);
  }

  lemma {:induction false} ProdRearranged(q: Modulus, s: seq<int>, n: nat)
    requires n < q && Rearranges(s, n)
    ensures Prod(q, s) == Prod(q, UpTo(n))
    decreases n
  {
    assert |s| == n;
    assert forall i :: 0 <= i < n ==> 1 <= s[i] <= n;
    hide MulIn, Rearranges;
    if n > 0 {
      var i := FindTop(s, n);
      RemoveTop(s, n, i);
      ProdRearranged(q, s[..i] + s[i + 1..], n - 1);
      ProdMove(q, s[..i], s[i], s[i + 1..]);
      assert s == s[..i] + [s[i]] + s[i + 1..];
      assert UpTo(n)[..n - 1] == UpTo(n - 1);
    } else {
      Empty(s);
    }
  }

  lemma Empty(s: seq<int>)
    requires Rearranges(s, 0)
    ensures s == UpTo(0)
  {
  }

  lemma SameRemainder(q: Modulus, x: int, y: int)
    requires x % q == y % q
    ensures x - y == Multiple(x / q - y / q, q)
  {
    assert x == Multiple(x / q, q) + x % q;
    assert y == Multiple(y / q, q) + y % q;
    assert Multiple(x / q - y / q, q) == Multiple(x / q, q) - Multiple(y / q, q);
  }

  /** Multiplication by a nonzero element is injective. */
  lemma MulInjective(q: Modulus, a: int, x: int, y: int)
    requires IsPrime(q) && 0 < a < q && 0 <= x < q && 0 <= y < q
    requires MulIn(q, a, x) == MulIn(q, a, y)
    ensures x == y
  {
    SameRemainder(q, a * x, a * y);
    assert a * (x - y) == a * x - a * y;
    FactorCancels(q, a, x - y, (a * x) / q - (a * y) / q);
  }

  /** Fermat's little theorem. */
  lemma Fermat(q: Modulus, a: int)
    requires IsPrime(q) && 0 < a < q
    ensures Power(q, a, q - 1) == 1
  {
    hide Power, Prod, MulIn, IsPrime;
    var n := q - 1;
    var all := UpTo(n);
    var scaled := Times(q, a, all);
    forall i | 0 <= i < n ensures 1 <= scaled[i] <= n {
      NonzeroProduct(q, a, all[i]);
      MulInRange(q, a, all[i]);
    }
    forall i, j | 0 <= i < j < n ensures scaled[i] != scaled[j] {
      if scaled[i] == scaled[j] { MulInjective(q, a, all[i], all[j]); }
    }
    ProdRearranged(q, scaled, n);
    ProdTimes(q, a, all);
    ProdNonzero(q, n);
    // P == a^n P, so a^n == 1
    MulOne(q, Prod(q, all));
    MulCommutes(q, Power(q, a, n), Prod(q, all));
    MulInjective(q, Prod(q, all), Power(q, a, n), 1);
  }

  lemma MulInRange(q: Modulus, a: int, b: int)
    ensures 0 <= MulIn(q, a, b) < q
  {
  }
}
