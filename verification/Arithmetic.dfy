/**
 Division, remainder and multiplication of naturals by repeated subtraction and
 addition. They equal the built-in operators (QuotientIsDivision, TimesIsProduct)
 and keep the proofs about blocks, groups and sectors linear.
 */
module Arithmetic {

  function Quotient(i: nat, d: nat): nat
    requires 0 < d
  {
    if i < d then 0 else 1 + Quotient(i - d, d)
  }

  function Remainder(i: nat, d: nat): (r: nat)
    requires 0 < d
    ensures r < d
  {
    if i < d then i else Remainder(i - d, d)
  }

  function Times(n: nat, d: nat): nat {
    if n == 0 then 0 else Times(n - 1, d) + d
  }

  lemma {:induction false} TimesIsProduct(n: nat, d: nat)
    ensures Times(n, d) == n * d
  {
    if n > 0 {
      TimesIsProduct(n - 1, d);
      assert n * d == (n - 1) * d + d;
    }
  }

  lemma DivisionUnique(i: nat, d: nat, q: nat, r: nat)
    requires 0 < d && i == q * d + r && r < d
    ensures i / d == q
  {
    var p := i / d;
    assert p * d <= i < p * d + d;
    TimesIsProduct(p, d);
    TimesIsProduct(q, d);
    if p < q {
      TimesMono(p + 1, q, d);
    } else if q < p {
      TimesMono(q + 1, p, d);
    }
  }

  lemma QuotientIsDivision(i: nat, d: nat)
    requires 0 < d
    ensures Quotient(i, d) == i / d && Remainder(i, d) == i % d
  {
    QuotientBounds(i, d);
    TimesIsProduct(Quotient(i, d), d);
    DivisionUnique(i, d, Quotient(i, d), Remainder(i, d));
  }

  lemma {:induction false} QuotientMono(a: nat, b: nat, d: nat)
    requires 0 < d && a <= b
    ensures Quotient(a, d) <= Quotient(b, d)
  {
    if a >= d {
      QuotientMono(a - d, b - d, d);
    }
  }

  /** A quotient with a remainder below the divisor is the quotient. */
  lemma {:induction false} QuotientIs(i: nat, d: nat, q: nat, r: nat)
    requires 0 < d && r < d && i == Times(q, d) + r
    ensures Quotient(i, d) == q && Remainder(i, d) == r
  {
    if q > 0 {
      QuotientIs(i - d, d, q - 1, r);
    }
  }

  /** The multiple at or below `i` and the next one. */
  lemma {:induction false} QuotientBounds(i: nat, d: nat)
    requires 0 < d
    ensures Times(Quotient(i, d), d) + Remainder(i, d) == i
    ensures i < Times(Quotient(i, d) + 1, d)
  {
    if i >= d {
      QuotientBounds(i - d, d);
    }
  }

  lemma {:induction false} TimesMono(a: nat, b: nat, d: nat)
    requires a <= b
    ensures Times(a, d) <= Times(b, d)
    decreases b - a
  {
    if a < b {
      TimesMono(a, b - 1, d);
    }
  }

  lemma {:induction false} TimesAdd(a: nat, b: nat, d: nat)
    ensures Times(a + b, d) == Times(a, d) + Times(b, d)
    decreases b
  {
    if b > 0 {
      TimesAdd(a, b - 1, d);
    }
  }

  /** Positions in a range that stays inside one block share its quotient, and only they do. */
  lemma {:induction false} InBlock(d: nat, position: nat, length: nat, i: nat)
    requires 0 < d && Remainder(position, d) + length <= d
    ensures position <= i < position + length <==>
            Quotient(i, d) == Quotient(position, d) &&
                Remainder(position, d) <= Remainder(i, d) < Remainder(position, d) + length
    ensures Quotient(i, d) == Quotient(position, d) ==> i - position == Remainder(i, d) - Remainder(position, d)
  {
    if position >= d && i >= d {
      InBlock(d, position - d, length, i - d);
    }
  }

  /** Taking away whole multiples of `d`. */
  lemma {:induction false} QuotientDrop(i: nat, k: nat, d: nat)
    requires 0 < d && Times(k, d) <= i
    ensures Quotient(i - Times(k, d), d) == Quotient(i, d) - k
  {
    if k > 0 {
      TimesMono(k - 1, k, d);
      QuotientDrop(i, k - 1, d);
    }
  }

  lemma {:induction false} RemainderAdds(a: nat, k: nat, d: nat)
    requires d > 0
    ensures Remainder(a + Times(k, d), d) == Remainder(a, d)
  {
    if k > 0 {
      RemainderAdds(a, k - 1, d);
      assert a + Times(k, d) == (a + Times(k - 1, d)) + d;
    }
  }

  /** The numbers below `n`. */
  ghost function Upto(n: nat): (s: set<nat>)
    ensures |s| == n && forall k :: k in s <==> 0 <= k < n
  {
    if n == 0 then {} else Upto(n - 1) + {n - 1}
  }
}
