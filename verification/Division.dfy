/** The 64-bit division the 32-bit boot stage brings along (src/efi/boot.c, udivmod64). */
module Division {
  import opened Arithmetic

  /** n shifted right by i. */
  function Top(n: nat, i: nat): nat { if i == 0 then n else Top(n / 2, i - 1) }

  lemma {:induction false} Halved(n: nat, i: nat)
    ensures Top(n, i) == 2 * Top(n, i + 1) + Top(n, i) % 2
  {
    if i > 0 { Halved(n / 2, i - 1); }
  }

  lemma {:induction false} AllShifted(n: nat, i: nat)
    requires n < Pow2(i)
    ensures Top(n, i) == 0
  {
    if i > 0 { AllShifted(n / 2, i - 1); }
  }

  lemma {:induction false} PowersAdd(a: nat, b: nat)
    ensures Pow2(a + b) == Pow2(a) * Pow2(b)
  {
    if a > 0 {
      PowersAdd(a - 1, b);
      assert 2 * (Pow2(a - 1) * Pow2(b)) == (2 * Pow2(a - 1)) * Pow2(b);
    }
  }

  lemma Squared(a: nat, v: nat)
    requires Pow2(a) == v
    ensures Pow2(a + a) == v * v
  {
    hide Pow2;
    PowersAdd(a, a);
  }

  lemma Pow64()
    ensures Pow2(64) == U64
  {
    assert Pow2(4) == 0x10;
    hide Pow2;
    Squared(4, 0x10);
    Squared(8, 0x100);
    Squared(16, 0x1_0000);
    Squared(32, 0x1_0000_0000);
  }

  lemma {:induction false} TopBound(n: nat, i: nat)
    ensures Top(n, i) <= n
  {
    if i > 0 {
      TopBound(n, i - 1);
      Halved(n, i - 1);
    }
  }

  /** What is known with i bits of n still to come: h is the quotient of the bits seen. */
  ghost predicate Seen(n: nat, d: nat, i: nat, q: nat, h: nat, rem: nat) {
    && q == h * Pow2(i) && Top(n, i) == h * d + rem && rem <= Top(n, i)
    && (d > 0 ==> rem < d) && (d == 0 ==> q + Pow2(i) == U64)
  }

  lemma SeenNext(n: nat, d: nat, i: nat, q: nat, h: nat, rem: nat)
    requires n < U64 && Seen(n, d, i + 1, q, h, rem)
    ensures (2 * rem) % U64 == 2 * rem
    ensures var r := 2 * rem + Top(n, i) % 2;
            if r >= d then Seen(n, d, i, q + Pow2(i), 2 * h + 1, r - d) else Seen(n, d, i, q, 2 * h, r)
  {
    Halved(n, i);
    TopBound(n, i);
    Doubled(Pow2(i), q, h, d, rem, Top(n, i + 1), Top(n, i) % 2);
  }

  lemma Doubled(p: nat, q: nat, h: nat, d: nat, rem: nat, t: nat, b: nat)
    requires q == h * (2 * p) && t == h * d + rem
    ensures q == 2 * h * p && q + p == (2 * h + 1) * p
    ensures 2 * t + b == 2 * h * d + (2 * rem + b) == (2 * h + 1) * d + (2 * rem + b - d)
    ensures 0 <= 2 * h * d
  {
    assert h * (2 * p) == 2 * h * p;
    assert (2 * h + 1) * p == 2 * h * p + p;
    assert 2 * (h * d) == 2 * h * d;
    assert (2 * h + 1) * d == 2 * h * d + d;
  }

  /** udivmod64: one bit of the quotient a step. The doubled remainder never leaves 64 bits,
      however large the divisor, because it is at most the bits of n seen so far. Dividing by
      zero yields all ones. */
  method UDivMod64(n: nat, d: nat) returns (q: nat, rem: nat)
    requires n < U64 && d < U64
    ensures d > 0 ==> q == n / d && rem == n % d
    ensures d == 0 ==> q == U64 - 1
  {
    q, rem := 0, 0;
    var i := 64;
    ghost var h: nat := 0;
    SeenNothing(n, d);
    hide Seen, Top, Pow2;
    while i > 0
      invariant 0 <= i <= 64 && Seen(n, d, i, q, h, rem)
    {
      i := i - 1;
      SeenNext(n, d, i, q, h, rem);
      rem, h := (2 * rem) % U64 + Top(n, i) % 2, 2 * h;
      if rem >= d {
        rem, h := rem - d, h + 1;
        q := q + Pow2(i);
      }
    }
    SeenAll(n, d, q, h, rem);
  }

  lemma SeenNothing(n: nat, d: nat)
    requires n < U64
    ensures Seen(n, d, 64, 0, 0, 0)
  {
    Pow64();
    AllShifted(n, 64);
    hide Top, Pow2;
  }

  lemma SeenAll(n: nat, d: nat, q: nat, h: nat, rem: nat)
    requires Seen(n, d, 0, q, h, rem)
    ensures d > 0 ==> q == n / d && rem == n % d
    ensures d == 0 ==> q == U64 - 1
  {
    assert Top(n, 0) == n && Pow2(0) == 1;
    if d > 0 { Unique(n, d, q, rem); }
  }
}
