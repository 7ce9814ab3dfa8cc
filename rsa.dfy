/**
 * Textbook RSA decryption as the two RSA screens implement it: `mod_exp`
 * (square-and-multiply over `long long` with C++'s truncating `%`) and
 * `decryptRSA`, which applies the RSADP primitive m = c^d mod n of
 * section 5.1.2 of RFC 8017, without padding, to every whitespace-separated
 * number of a string and keeps each result as one `char`.
 */
module Rsa {
  import opened Wrappers
  import opened CText

  /** An 8-bit `char` value, as the byte it stores. */
  type Byte = b: int | 0 <= b < 256

  function Abs(x: int): nat
  {
    if x < 0 then -x else x
  }

  function Pow(b: int, e: nat): int
  {
    if e == 0 then 1 else b * Pow(b, e - 1)
  }

  /** C++'s `a % m`: the quotient is truncated toward zero, so the remainder
      takes the sign of `a` and is smaller than `m` in magnitude. */
  function CRem(a: int, m: int): (r: int)
    requires m != 0
    ensures Abs(r) < Abs(m)
    ensures a >= 0 ==> r >= 0
    ensures a <= 0 ==> r <= 0
  {
    if a >= 0 then a % Abs(m) else -((-a) % Abs(m))
  }

  /** `static_cast<char>(v)`: the low eight bits of `v`. */
  function Trunc8(v: int): (b: Byte)
    ensures (v - b) % 256 == 0
  {
    v % 256
  }

  /** What `mod_exp(b, e, m)` returns: 1 when the loop never runs (e <= 0,
      whatever m is), otherwise b^e reduced with C++'s `%`. */
  function ModExpValue(b: int, e: int, m: int): int
    requires m != 0
  {
    if e <= 0 then 1 else CRem(Pow(b, e), m)
  }

  // ---------------------------------------------------------------------
  // Arithmetic facts the loop invariant rests on

  lemma MulAtLeast(d: int, n: int)
    requires d >= 1 && n > 0
    ensures d * n >= n
  {
    if d > 1 {
      MulAtLeast(d - 1, n);
      assert d * n == (d - 1) * n + n;
    }
  }

  lemma ModUnique(a: int, n: int, q: int, r: int)
    requires n > 0 && 0 <= r < n && a == q * n + r
    ensures a % n == r && a / n == q
  {
    var q0 := a / n;
    var r0 := a % n;
    assert a == q0 * n + r0;
    var d := q - q0;
    assert d * n == r0 - r;
    if d >= 1 {
      MulAtLeast(d, n);
    } else if d <= -1 {
      MulAtLeast(-d, n);
    }
  }

  lemma ModAddMultiple(k: int, z: int, n: int)
    requires n > 0
    ensures (k * n + z) % n == z % n
  {
    var q := z / n;
    assert z == q * n + z % n;
    assert k * n + z == (k + q) * n + z % n;
    ModUnique(k * n + z, n, k + q, z % n);
  }

  lemma ModMulNat(x: nat, y: nat, n: nat)
    requires n > 0
    ensures ((x % n) * y) % n == (x * y) % n
  {
    var q := x / n;
    var r := x % n;
    assert x == q * n + r;
    assert x * y == (q * y) * n + r * y;
    ModAddMultiple(q * y, r * y, n);
  }

  /** `a` and `CRem(a, m)` differ by a multiple of m. */
  lemma CRemCongruent(a: int, m: int)
    requires m != 0
    ensures (a - CRem(a, m)) % Abs(m) == 0
  {
    var n := Abs(m);
    if a >= 0 {
      ModUnique(a - a % n, n, a / n, 0);
    } else {
      ModUnique((-a) - (-a) % n, n, (-a) / n, 0);
      ModUnique(a + (-a) % n, n, -((-a) / n), 0);
    }
  }

  lemma MulNeg(x: int, y: int)
    ensures (-x) * y == -(x * y) && x * (-y) == -(x * y) && (-x) * (-y) == x * y
  {
  }

  /** Reducing a factor with `%` first does not change the reduced product. */
  lemma CRemMulLeft(a: int, c: int, m: int)
    requires m != 0
    ensures CRem(CRem(a, m) * c, m) == CRem(a * c, m)
  {
    var n := Abs(m);
    var A: int, C: int := Abs(a), Abs(c);
    var R: int := A % n;
    ModMulNat(A, C, n);
    var P := CRem(a, m) * c;
    var Q := a * c;
    if a >= 0 && c >= 0 {
      assert P == R * C && Q == A * C;
    } else if a < 0 && c < 0 {
      MulNeg(R, C);
      MulNeg(A, C);
      assert P == R * C && Q == A * C;
    } else if a < 0 {
      MulNeg(R, C);
      MulNeg(A, C);
      assert P == -(R * C) && Q == -(A * C);
    } else {
      MulNeg(R, C);
      MulNeg(A, C);
      assert P == -(R * C) && Q == -(A * C);
    }
  }

  lemma CRemIdempotent(a: int, m: int)
    requires m != 0
    ensures CRem(CRem(a, m), m) == CRem(a, m)
  {
    CRemMulLeft(a, 1, m);
  }

  /** b^(2k) == (b*b)^k */
  lemma {:induction false} PowSquare(b: int, k: nat)
    ensures Pow(b * b, k) == Pow(b, 2 * k)
  {
    if k > 0 {
      PowSquare(b, k - 1);
      assert Pow(b, 2 * k) == b * (b * Pow(b, 2 * k - 2));
    }
  }

  /** Reducing the base of a power does not change the reduced product. */
  lemma {:induction false} PowCRem(x: int, k: nat, c: int, m: int)
    requires m != 0
    ensures CRem(c * Pow(CRem(x, m), k), m) == CRem(c * Pow(x, k), m)
  {
    if k > 0 {
      var y := CRem(x, m);
      var py, px := Pow(y, k - 1), Pow(x, k - 1);
      PowCRem(x, k - 1, c * y, m);
      MulAssoc(c, y, py);
      MulAssoc(c, x, px);
      MulAssoc(y, c, px);
      MulAssoc(x, c, px);
      CRemMulLeft(x, c * px, m);
    }
  }

  lemma MulAssoc(a: int, b: int, c: int)
    ensures a * (b * c) == (a * b) * c && a * b == b * a
  {
  }

  lemma {:induction false} PowNonNegative(b: int, e: nat)
    requires b >= 0
    ensures Pow(b, e) >= 0
  {
    if e > 0 {
      PowNonNegative(b, e - 1);
    }
  }

  lemma ProductFits(x: int, y: int, bound: nat)
    requires bound <= 0x8000_0000
    requires Abs(x) <= bound && Abs(y) <= bound
    ensures InInt64(x * y)
  {
    AbsMul(x, y);
    MulBound(Abs(x), Abs(y), bound);
    MulBound(bound, bound, 0x8000_0000);
  }

  lemma AbsMul(x: int, y: int)
    ensures Abs(x * y) == Abs(x) * Abs(y)
  {
    if x < 0 && y >= 0 {
      assert x * y == -((-x) * y);
    } else if x >= 0 && y < 0 {
      assert x * y == -(x * (-y));
    } else if x < 0 && y < 0 {
      assert x * y == (-x) * (-y);
    }
  }

  lemma MulBound(a: nat, b: nat, c: nat)
    requires a <= c && b <= c
    ensures a * b <= c * c
  {
    assert a * b <= c * b;
    assert c * b <= c * c;
  }

  /** One square-and-multiply step keeps `CRem(result * base^exp, m)`. */
  lemma StepKeepsInvariant(r: int, b: int, x: nat, m: int)
    requires m != 0 && x > 0
    ensures var r' := if x % 2 == 1 then CRem(r * b, m) else r;
            CRem(r' * Pow(CRem(b * b, m), x / 2), m) == CRem(r * Pow(b, x), m)
  {
    var r' := if x % 2 == 1 then CRem(r * b, m) else r;
    PowCRem(b * b, x / 2, r', m);
    PowSquare(b, x / 2);
    if x % 2 == 1 {
      CRemMulLeft(r * b, Pow(b, 2 * (x / 2)), m);
      assert Pow(b, x) == b * Pow(b, 2 * (x / 2));
      assert r * b * Pow(b, 2 * (x / 2)) == r * Pow(b, x);
    } else {
      assert x == 2 * (x / 2);
    }
  }

  // ---------------------------------------------------------------------
  // mod_exp

  /**
   * `mod_exp(base, exp, mod)`. The products are computed exactly; the ghost
   * `noOverflow` records whether every product the C++ code forms fits in a
   * `long long`, which is guaranteed once |mod| <= 2^31.
   */
  method ModExp(base: int, exp: int, mod: int) returns (result: int, ghost noOverflow: bool)
    requires mod != 0
    ensures result == ModExpValue(base, exp, mod)
    ensures Abs(mod) <= 0x8000_0000 ==> noOverflow
  {
    ghost var b0, e0 := base, exp;
    result := 1;
    var b := CRem(base, mod);
    var x := exp;
    noOverflow := true;
    if e0 > 0 {
      PowCRem(b0, e0, 1, mod);
    }
    while x > 0
      invariant e0 <= 0 ==> x == e0 && result == 1
      invariant e0 > 0 ==> 0 <= x && CRem(result * Pow(b, x), mod) == CRem(Pow(b0, e0), mod)
      invariant e0 > 0 && x == 0 ==> result == CRem(result, mod)
      invariant Abs(result) <= Abs(mod) && Abs(b) < Abs(mod)
      invariant Abs(mod) <= 0x8000_0000 ==> noOverflow
    {
      StepKeepsInvariant(result, b, x, mod);
      if x % 2 == 1 {
        if Abs(mod) <= 0x8000_0000 {
          ProductFits(result, b, Abs(mod));
        }
        noOverflow := noOverflow && InInt64(result * b);
        CRemIdempotent(result * b, mod);
        result := CRem(result * b, mod);
      }
      x := x / 2;
      if Abs(mod) <= 0x8000_0000 {
        ProductFits(b, b, Abs(mod));
      }
      noOverflow := noOverflow && InInt64(b * b);
      b := CRem(b * b, mod);
    }
    if e0 > 0 {
      assert result * Pow(b, x) == result;
    }
  }

  /** The RSADP primitive (section 5.1.2 of RFC 8017) for a key with
      modulus n > 1: m = c^d mod n, in [0, n). */
  lemma ModExpIsRsadp(c: int, d: int, n: int)
    requires c >= 0 && d >= 0 && n > 1
    ensures 0 <= ModExpValue(c, d, n) < n
    ensures ModExpValue(c, d, n) == Pow(c, d) % n
  {
    if d > 0 {
      PowNonNegative(c, d);
    }
  }

  /** With a zero exponent the loop never runs and no reduction happens, so
      even a modulus of 1 yields 1 rather than 0. */
  lemma ZeroExponentUnreduced(b: int)
    ensures ModExpValue(b, 0, 1) == 1 && Pow(b, 0) % 1 == 0
  {
  }

  // ---------------------------------------------------------------------
  // decryptRSA

  lemma DecryptsToExtend(done: seq<string>, out: seq<Byte>, token: string, d: int, n: int)
    requires n != 0 && DecryptsTo(done, out, d, n) && Stoll(token).Some?
    ensures DecryptsTo(done + [token], out + [DecryptToken(token, d, n)], d, n)
  {
    var ts, bs := done + [token], out + [DecryptToken(token, d, n)];
    forall k | 0 <= k < |ts|
      ensures Stoll(ts[k]).Some? && bs[k] == DecryptToken(ts[k], d, n)
    {
      if k < |done| {
        assert ts[k] == done[k] && bs[k] == out[k];
      } else {
        assert ts[k] == token && bs[k] == DecryptToken(token, d, n);
      }
    }
  }

  /** Every token starts with a number `stoll` accepts. */
  predicate AllParse(tokens: seq<string>)
  {
    forall k :: 0 <= k < |tokens| ==> Stoll(tokens[k]).Some?
  }

  /** The byte one token decrypts to under the key (d, n). */
  function DecryptToken(token: string, d: int, n: int): Byte
    requires n != 0 && Stoll(token).Some?
  {
    Trunc8(ModExpValue(Stoll(token).value, d, n))
  }

  /** `bytes` holds, in order, exactly one decrypted byte per token. */
  predicate DecryptsTo(tokens: seq<string>, bytes: seq<Byte>, d: int, n: int)
    requires n != 0
  {
    && AllParse(tokens)
    && |bytes| == |tokens|
    && forall k :: 0 <= k < |tokens| ==> bytes[k] == DecryptToken(tokens[k], d, n)
  }

  /**
   * `decryptRSA(text, d, n)`: one byte per whitespace-separated token, in
   * token order, each `mod_exp(stoll(token), d, n)` truncated to a `char`.
   * None stands for the exception `stoll` throws at the first token that
   * does not start with a number.
   */
  method Decrypt(text: string, d: int, n: int) returns (r: Option<seq<Byte>>)
    requires n != 0
    ensures r.Some? <==> AllParse(Tokens(text))
    ensures r.Some? ==> DecryptsTo(Tokens(text), r.value, d, n)
    ensures Tokens(text) == [] ==> r == Some([])
  {
    var tokens := Tokens(text);
    var out: seq<Byte> := [];
    for i := 0 to |tokens|
      invariant DecryptsTo(tokens[..i], out, d, n)
    {
      var cipher := Stoll(tokens[i]);
      if cipher.None? {
        assert !AllParse(tokens);
        return None;
      }
      assert tokens[..i + 1] == tokens[..i] + [tokens[i]];
      DecryptsToExtend(tokens[..i], out, tokens[i], d, n);
      var m, _ := ModExp(cipher.value, d, n);
      out := out + [Trunc8(m)];
    }
    assert tokens[..|tokens|] == tokens;
    return Some(out);
  }
}
