/** Bit strings, least significant bit first, and the numbers they denote. */
module Words {

  type Bits = seq<bool>

  function Zeros(n: nat): (z: Bits)
    ensures |z| == n && forall i :: 0 <= i < n ==> !z[i]
  {
    seq(n, i => false)
  }

  function Xor(a: Bits, b: Bits): (c: Bits)
    requires |a| == |b|
    ensures |c| == |a| && forall i :: 0 <= i < |a| ==> c[i] == (a[i] != b[i])
  {
    seq(|a|, i requires 0 <= i < |a| => a[i] != b[i])
  }

  function And(a: Bits, b: Bits): (c: Bits)
    requires |a| == |b|
    ensures |c| == |a| && forall i :: 0 <= i < |a| ==> c[i] == (a[i] && b[i])
  {
    seq(|a|, i requires 0 <= i < |a| => a[i] && b[i])
  }

  function Or(a: Bits, b: Bits): (c: Bits)
    requires |a| == |b|
    ensures |c| == |a| && forall i :: 0 <= i < |a| ==> c[i] == (a[i] || b[i])
  {
    seq(|a|, i requires 0 <= i < |a| => a[i] || b[i])
  }

  function Not(a: Bits): (c: Bits)
    ensures |c| == |a| && forall i :: 0 <= i < |a| ==> c[i] == !a[i]
  {
    seq(|a|, i requires 0 <= i < |a| => !a[i])
  }

  function Shr(a: Bits, n: nat): (c: Bits)
    requires n <= |a|
    ensures |c| == |a|
  {
    a[n..] + Zeros(n)
  }

  function Shl(a: Bits, n: nat): (c: Bits)
    requires n <= |a|
    ensures |c| == |a|
  {
    Zeros(n) + a[..|a| - n]
  }

  function Pow2(n: nat): (p: nat)
    ensures p >= 1
  {
    if n == 0 then 1 else 2 * Pow2(n - 1)
  }

  function ToNat(a: Bits): (n: nat)
    ensures n < Pow2(|a|)
  {
    if a == [] then 0 else (if a[0] then 1 else 0) + 2 * ToNat(a[1..])
  }

  function FromNat(n: nat, length: nat): (a: Bits)
    ensures |a| == length
  {
    if length == 0 then [] else [n % 2 == 1] + FromNat(n / 2, length - 1)
  }

  lemma {:induction false} FromToNat(a: Bits)
    ensures FromNat(ToNat(a), |a|) == a
  {
    if a != [] {
      var n := ToNat(a);
      assert n / 2 == ToNat(a[1..]) && (n % 2 == 1) == a[0];
      FromToNat(a[1..]);
    }
  }

  lemma {:induction false} ToFromNat(n: nat, length: nat)
    requires n < Pow2(length)
    ensures ToNat(FromNat(n, length)) == n
  {
    if length > 0 {
      ToFromNat(n / 2, length - 1);
      assert FromNat(n, length)[1..] == FromNat(n / 2, length - 1);
    }
  }

  /** Trailing clear bits do not change the number. */
  lemma {:induction false} ToNatPadded(a: Bits, n: nat)
    ensures ToNat(a + Zeros(n)) == ToNat(a)
  {
    if a != [] {
      assert (a + Zeros(n))[1..] == a[1..] + Zeros(n);
      ToNatPadded(a[1..], n);
    } else if n > 0 {
      assert ([] + Zeros(n))[1..] == [] + Zeros(n - 1);
      ToNatPadded([], n - 1);
    }
  }

  /** A small number has clear high bits. */
  lemma {:induction false} FromNatPadded(n: nat, short: nat, length: nat)
    requires n < Pow2(short) && short <= length
    ensures FromNat(n, length) == FromNat(n, short) + Zeros(length - short)
  {
    if short > 0 {
      FromNatPadded(n / 2, short - 1, length - 1);
    } else if length > 0 {
      FromNatPadded(0, 0, length - 1);
      assert Zeros(length) == [false] + Zeros(length - 1);
    }
  }

  lemma {:induction false} Pow2Add(m: nat, n: nat)
    ensures Pow2(m + n) == Pow2(m) * Pow2(n)
  {
    if m > 0 {
      Pow2Add(m - 1, n);
      assert Pow2(m + n) == 2 * (Pow2(m - 1) * Pow2(n)) == Pow2(m) * Pow2(n);
    }
  }

  lemma Pow2Values()
    ensures Pow2(8) == 256 && Pow2(32) == 0x1_0000_0000
  {
    assert Pow2(8) == 256;
    Pow2Add(8, 8);
    Pow2Add(16, 16);
  }
}

/**
 * JavaScript's 32-bit operators. Their operands are Numbers (integers here), coerced to a 32-bit
 * pattern; every result but that of `>>>` is read back as a signed number.
 */
module JsNumber {
  import opened Words

  const TWO32: int := 0x1_0000_0000
  const TWO31: int := 0x8000_0000

  function ToUint32(x: int): (u: nat)
    ensures u < TWO32
  {
    x % TWO32
  }

  function ToInt32(x: int): (s: int)
    ensures -TWO31 <= s < TWO31
  {
    var u := ToUint32(x);
    if u >= TWO31 then u - TWO32 else u
  }

  function Pattern(x: int): (bits: Bits)
    ensures |bits| == 32
  {
    FromNat(ToUint32(x), 32)
  }

  function JsXor(x: int, y: int): (s: int)
    ensures -TWO31 <= s < TWO31
  {
    ToInt32(ToNat(Xor(Pattern(x), Pattern(y))))
  }

  function JsAnd(x: int, y: int): (s: int)
    ensures -TWO31 <= s < TWO31
  {
    ToInt32(ToNat(And(Pattern(x), Pattern(y))))
  }

  function JsOr(x: int, y: int): (s: int)
    ensures -TWO31 <= s < TWO31
  {
    ToInt32(ToNat(Or(Pattern(x), Pattern(y))))
  }

  function JsNot(x: int): (s: int)
    ensures -TWO31 <= s < TWO31
  {
    ToInt32(ToNat(Not(Pattern(x))))
  }

  /** `x << n`, for a shift count below 32. */
  function JsShl(x: int, n: nat): (s: int)
    requires n < 32
    ensures -TWO31 <= s < TWO31
  {
    ToInt32(ToNat(Shl(Pattern(x), n)))
  }

  /** `x >>> n`, for a shift count below 32; `x >>> 0` is ToUint32. */
  function JsShr(x: int, n: nat): (u: nat)
    requires n < 32
  {
    ToNat(Shr(Pattern(x), n))
  }

  /** A signed or unsigned reading of a pattern coerces back to that pattern. */
  lemma PatternOf(bits: Bits)
    requires |bits| == 32
    ensures Pattern(ToNat(bits)) == bits && Pattern(ToInt32(ToNat(bits))) == bits
    ensures ToNat(bits) < TWO32
  {
    var n := ToNat(bits);
    assert n < TWO32 by { Pow2Values(); }
    Coercions(n);
    FromToNat(bits);
  }

  lemma Coercions(n: nat)
    requires n < TWO32
    ensures ToUint32(n) == n && ToUint32(ToInt32(n)) == n
  {
  }

  lemma PatternXor(x: int, y: int)
    ensures Pattern(JsXor(x, y)) == Xor(Pattern(x), Pattern(y))
  {
    PatternOf(Xor(Pattern(x), Pattern(y)));
  }

  lemma PatternAnd(x: int, y: int)
    ensures Pattern(JsAnd(x, y)) == And(Pattern(x), Pattern(y))
  {
    PatternOf(And(Pattern(x), Pattern(y)));
  }

  lemma PatternOr(x: int, y: int)
    ensures Pattern(JsOr(x, y)) == Or(Pattern(x), Pattern(y))
  {
    PatternOf(Or(Pattern(x), Pattern(y)));
  }

  lemma PatternNot(x: int)
    ensures Pattern(JsNot(x)) == Not(Pattern(x))
  {
    PatternOf(Not(Pattern(x)));
  }

  lemma PatternShl(x: int, n: nat)
    requires n < 32
    ensures Pattern(JsShl(x, n)) == Shl(Pattern(x), n)
  {
    PatternOf(Shl(Pattern(x), n));
  }

  lemma PatternShr(x: int, n: nat)
    requires n < 32
    ensures Pattern(JsShr(x, n)) == Shr(Pattern(x), n) && JsShr(x, n) < TWO32
  {
    PatternOf(Shr(Pattern(x), n));
  }
}
