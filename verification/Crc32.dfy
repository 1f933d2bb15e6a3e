/**
 * The table-driven CRC-32 of the archive writer and reader, against the bit-at-a-time checksum of
 * section 4.4.7 of PKWARE APPNOTE.TXT. Registers are 32-bit patterns, least significant bit first.
 */
module Crc32 {
  import opened Bytes
  import opened Words
  import opened JsNumber

  const POLYNOMIAL: int := 0xedb88320
  const ONES: int := 0xffffffff

  // ---------------------------------------------------------------- the reference, one bit at a time

  /**
   * The generator x^32 + x^26 + x^23 + x^22 + x^16 + x^12 + x^11 + x^10 + x^8 + x^7 + x^5 + x^4 + x^2 + x + 1
   * without its leading term, reflected: the coefficient of x^e is bit 31 - e.
   */
  function Generator(): (g: Bits)
    ensures IsGenerator(g)
  {
    seq(32, i requires 0 <= i < 32 => 31 - i in {26, 23, 22, 16, 12, 11, 10, 8, 7, 5, 4, 2, 1, 0})
  }

  /** All that the shift register needs of its polynomial. */
  predicate IsGenerator(g: Bits) {
    |g| == 32 && g[31]
  }

  /** The shift register after one more message bit. */
  function FeedBit(g: Bits, register: Bits, bit: bool): (r: Bits)
    requires IsGenerator(g) && |register| == 32
    ensures |r| == 32
  {
    if register[0] != bit then Xor(g, Shr(register, 1)) else Shr(register, 1)
  }

  function FeedBits(g: Bits, register: Bits, message: Bits): (r: Bits)
    requires IsGenerator(g) && |register| == 32
    ensures |r| == 32
    decreases |message|
  {
    if message == [] then register else FeedBits(g, FeedBit(g, register, message[0]), message[1..])
  }

  /** The bits of a message; each byte enters least significant bit first. */
  function MessageBits(message: seq<byte>): (bits: Bits)
    ensures |bits| == 8 * |message|
  {
    if message == [] then [] else FromNat(message[0], 8) + MessageBits(message[1..])
  }

  /** The CRC-32 of a message: the register starts at ones and is complemented at the end. */
  function Checksum(message: seq<byte>): (crc: nat)
    ensures crc < U32
  {
    Pow2Values();
    ToNat(Not(FeedBits(Generator(), Not(Zeros(32)), MessageBits(message))))
  }

  // ---------------------------------------------------------------- the table

  ghost predicate IsCrcTable(g: Bits, table: seq<int>)
    requires IsGenerator(g)
  {
    |table| == 256 && forall i :: 0 <= i < 256 ==> Pattern(table[i]) == FeedBits(g, Pattern(i), Zeros(8))
  }

  method CrcTable() returns (table: array<int>)
    ensures fresh(table) && IsCrcTable(Generator(), table[..])
  {
    hide FeedBits;
    hide Pattern;
    table := new int[256];
    for index := 0 to 256
      invariant forall i :: 0 <= i < index ==> Pattern(table[i]) == FeedBits(Generator(), Pattern(i), Zeros(8))
    {
      var entry := CrcTableEntry(index);
      table[index] := entry;
    }
  }

  /** The inner loop of the table construction. */
  method CrcTableEntry(index: nat) returns (entry: int)
    ensures Pattern(entry) == FeedBits(Generator(), Pattern(index), Zeros(8))
  {
    ghost var g: Bits :| g == Generator() && IsGenerator(g);
    PatternPolynomial();
    var value: int := index;
    for bit := 0 to 8
      invariant FeedBits(g, Pattern(value), Zeros(8 - bit)) == FeedBits(g, Pattern(index), Zeros(8))
    {
      DivisionStep(g, value, 8 - bit);
      value := if JsAnd(value, 1) != 0 then JsXor(POLYNOMIAL, JsShr(value, 1)) else JsShr(value, 1);
    }
    assert Zeros(0) == [];
    JsUnsigned(value);
    entry := JsShr(value, 0);
  }

  lemma DivisionStep(g: Bits, value: int, left: nat)
    requires IsGenerator(g) && g == Pattern(POLYNOMIAL) && left > 0
    ensures FeedBits(g, Pattern(value), Zeros(left))
         == FeedBits(g, Pattern(if JsAnd(value, 1) != 0 then JsXor(POLYNOMIAL, JsShr(value, 1)) else JsShr(value, 1)),
                     Zeros(left - 1))
  {
    JsShift(g, value);
    assert Zeros(left)[1..] == Zeros(left - 1);
  }

  /** One turn of the loop feeds one byte. */
  lemma UpdateStep(g: Bits, table: seq<int>, value: int, buffer: seq<byte>, i: nat)
    requires IsGenerator(g) && IsCrcTable(g, table) && i < |buffer|
    ensures var index := JsAnd(JsXor(value, buffer[i]), 0xff);
      && 0 <= index < 256
      && FeedBits(g, Pattern(JsXor(table[index], JsShr(value, 8))), MessageBits(buffer[i + 1..]))
         == FeedBits(g, Pattern(value), MessageBits(buffer[i..]))
  {
    hide FeedBits, FeedBit, JsXor, JsAnd, JsShr, Pattern, ToNat, FromNat, Xor, Shr;
    var index := JsAnd(JsXor(value, buffer[i]), 0xff);
    PatternXor(value, buffer[i]);
    PatternByte(buffer[i]);
    LowByte(JsXor(value, buffer[i]));
    TableStep(g, Pattern(value), FromNat(buffer[i], 8), MessageBits(buffer[i + 1..]));
    assert buffer[i..][1..] == buffer[i + 1..];
    PatternXor(table[index], JsShr(value, 8));
    PatternShr(value, 8);
  }

  method Crc32(table: array<int>, buffer: seq<byte>) returns (crc: nat)
    requires IsCrcTable(Generator(), table[..])
    ensures crc == Checksum(buffer)
  {
    ghost var g: Bits :| g == Generator() && IsGenerator(g);
    var value := ONES;
    hide FeedBits, FeedBit, Checksum, JsXor, JsAnd, JsShr, Pattern, ToNat, FromNat, Generator, Xor, Not, Shr;
    PatternOnes();
    for i := 0 to |buffer|
      invariant FeedBits(g, Pattern(value), MessageBits(buffer[i..]))
             == FeedBits(g, Not(Zeros(32)), MessageBits(buffer))
    {
      UpdateStep(g, table[..], value, buffer, i);
      var index := JsAnd(JsXor(value, buffer[i]), 0xff);
      value := JsXor(table[index], JsShr(value, 8));
    }
    crc := JsShr(JsXor(value, ONES), 0);
    PatternXor(value, ONES);
    assert Xor(Pattern(value), Not(Zeros(32))) == Not(Pattern(value));
    JsUnsigned(JsXor(value, ONES));
    ChecksumIs(buffer, Pattern(value));
  }

  lemma ChecksumIs(message: seq<byte>, register: Bits)
    requires |register| == 32
    requires FeedBits(Generator(), Not(Zeros(32)), MessageBits(message)) == FeedBits(Generator(), register, [])
    ensures Checksum(message) == ToNat(Not(register))
  {
  }

  /** `value >>> 0` reads the pattern as an unsigned number. */
  lemma JsUnsigned(value: int)
    ensures JsShr(value, 0) == ToNat(Pattern(value)) && Pattern(JsShr(value, 0)) == Pattern(value)
  {
    PatternShr(value, 0);
    assert Shr(Pattern(value), 0) == Pattern(value);
  }

  lemma PatternOnes()
    ensures Pattern(ONES) == Not(Zeros(32))
  {
    AllOnes(32);
    Pow2Values();
  }

  lemma {:induction false} AllOnes(n: nat)
    ensures FromNat(Pow2(n) - 1, n) == Not(Zeros(n))
  {
    if n > 0 {
      AllOnes(n - 1);
      assert (Pow2(n) - 1) % 2 == 1 && (Pow2(n) - 1) / 2 == Pow2(n - 1) - 1;
      assert Not(Zeros(n)) == [true] + Not(Zeros(n - 1));
    }
  }

  /** The constant of the source is that generator. */
  lemma PatternPolynomial()
    ensures Pattern(POLYNOMIAL) == Generator()
  {
    hide FromNat;
    HighHalf();
    NibbleOf(0xedb88, 20);
    NibbleOf(0xedb883, 24);
    NibbleOf(0xedb8832, 28);
    NibbleOf(0xedb88320, 32);
    assert FromNat(0xedb88320, 32) == Generator();
    assert ToUint32(POLYNOMIAL) == 0xedb88320;
  }

  lemma HighHalf()
    ensures FromNat(0xedb8, 16) == Generator()[16..]
  {
    hide FromNat;
    assert FromNat(0, 0) == [];
    NibbleOf(0xe, 4);
    NibbleOf(0xed, 8);
    NibbleOf(0xedb, 12);
    NibbleOf(0xedb8, 16);
  }

  lemma NibbleOf(n: nat, length: nat)
    requires length >= 4
    ensures FromNat(n, length)
         == [n % 2 == 1, n / 2 % 2 == 1, n / 4 % 2 == 1, n / 8 % 2 == 1] + FromNat(n / 16, length - 4)
  {
    assert FromNat(n / 2, length - 1) == [n / 2 % 2 == 1] + FromNat(n / 4, length - 2);
    assert FromNat(n / 4, length - 2) == [n / 4 % 2 == 1] + FromNat(n / 8, length - 3);
  }

  /** One pass of the table-building loop body is one division step. */
  lemma JsShift(g: Bits, value: int)
    requires g == Pattern(POLYNOMIAL)
    ensures JsAnd(value, 1) != 0 <==> Pattern(value)[0]
    ensures Pattern(JsShr(value, 1)) == Shr(Pattern(value), 1)
    ensures Pattern(JsXor(POLYNOMIAL, JsShr(value, 1))) == Xor(g, Shr(Pattern(value), 1))
  {
    PatternShr(value, 1);
    PatternXor(POLYNOMIAL, JsShr(value, 1));
    LowBit(value);
  }

  lemma LowBit(value: int)
    ensures JsAnd(value, 1) != 0 <==> Pattern(value)[0]
  {
    var bits := Pattern(value);
    FromNatPadded(1, 1, 32);
    assert And(bits, Pattern(1)) == [bits[0]] + Zeros(31);
    ToNatPadded([bits[0]], 31);
    assert [bits[0]][1..] == [];
  }

  /** Masking with 0xff keeps the low byte of the pattern. */
  lemma LowByte(value: int)
    ensures 0 <= JsAnd(value, 0xff) < 256
    ensures Pattern(JsAnd(value, 0xff)) == Pattern(value)[..8] + Zeros(24)
  {
    hide ToNat, FromNat, Pow2;
    var bits, low := Pattern(value), Pattern(value)[..8];
    PatternMask();
    PatternAnd(value, 0xff);
    assert And(bits, Pattern(0xff)) == low + Zeros(24);
    ToNatPadded(low, 24);
    Pow2Values();
  }

  lemma PatternMask()
    ensures Pattern(0xff) == Not(Zeros(8)) + Zeros(24)
  {
    hide FromNat, Pow2;
    Pow2Values();
    AllOnes(8);
    FromNatPadded(255, 8, 32);
  }

  lemma PatternByte(b: byte)
    ensures Pattern(b) == FromNat(b, 8) + Zeros(24)
  {
    hide FromNat, Pow2;
    Pow2Values();
    FromNatPadded(b, 8, 32);
  }

  // ---------------------------------------------------------------- one table step is eight bit steps

  lemma FeedBitLinear(g: Bits, x: Bits, y: Bits, a: bool, b: bool)
    requires IsGenerator(g) && |x| == |y| == 32
    ensures FeedBit(g, Xor(x, y), a != b) == Xor(FeedBit(g, x, a), FeedBit(g, y, b))
  {
    assert Shr(Xor(x, y), 1) == Xor(Shr(x, 1), Shr(y, 1));
  }

  lemma {:induction false} FeedBitsLinear(g: Bits, x: Bits, y: Bits, a: Bits, b: Bits)
    requires IsGenerator(g) && |x| == |y| == 32 && |a| == |b|
    ensures FeedBits(g, Xor(x, y), Xor(a, b)) == Xor(FeedBits(g, x, a), FeedBits(g, y, b))
    decreases |a|
  {
    hide FeedBit, Xor;
    if a != [] {
      FeedBitLinear(g, x, y, a[0], b[0]);
      FeedBitsLinear(g, FeedBit(g, x, a[0]), FeedBit(g, y, b[0]), a[1..], b[1..]);
      assert Xor(a, b)[1..] == Xor(a[1..], b[1..]);
    }
  }

  /** Clear bits are simply shifted out. */
  lemma {:induction false} FeedClear(g: Bits, x: Bits, times: nat)
    requires IsGenerator(g) && |x| == 32 && times <= 32 && forall i :: 0 <= i < times ==> !x[i]
    ensures FeedBits(g, x, Zeros(times)) == Shr(x, times)
    decreases times
  {
    if times > 0 {
      assert FeedBit(g, x, false) == Shr(x, 1);
      FeedClear(g, Shr(x, 1), times - 1);
      assert Zeros(times)[1..] == Zeros(times - 1);
      assert Shr(Shr(x, 1), times - 1) == Shr(x, times);
    } else {
      assert Shr(x, 0) == x;
    }
  }

  /** Message bits may be mixed into the register up front. */
  lemma {:induction false} FeedIsShift(g: Bits, register: Bits, message: Bits)
    requires IsGenerator(g) && |register| == 32 && |message| <= 32
    ensures FeedBits(g, register, message)
         == FeedBits(g, Xor(register, message + Zeros(32 - |message|)), Zeros(|message|))
    decreases |message|
  {
    var padded := message + Zeros(32 - |message|);
    if message == [] {
      assert Xor(register, padded) == register;
    } else {
      var m, rest, zeros := message[0], message[1..] + Zeros(33 - |message|), Zeros(|message|);
      calc {
        FeedBits(g, register, message);
        FeedBits(g, FeedBit(g, register, m), message[1..]);
        { FeedIsShift(g, FeedBit(g, register, m), message[1..]); }
        FeedBits(g, Xor(FeedBit(g, register, m), rest), Zeros(|message| - 1));
        { assert FeedBit(g, padded, m) == Shr(padded, 1) == rest; FeedBitLinear(g, register, padded, m, m); }
        FeedBits(g, FeedBit(g, Xor(register, padded), false), Zeros(|message| - 1));
        { assert zeros[1..] == Zeros(|message| - 1) && !zeros[0]; }
        FeedBits(g, Xor(register, padded), zeros);
      }
    }
  }

  lemma {:induction false} FeedBitsConcat(g: Bits, register: Bits, left: Bits, right: Bits)
    requires IsGenerator(g) && |register| == 32
    ensures FeedBits(g, register, left + right) == FeedBits(g, FeedBits(g, register, left), right)
    decreases |left|
  {
    hide FeedBit;
    if left == [] {
      assert left + right == right;
    } else {
      FeedBitsConcat(g, FeedBit(g, register, left[0]), left[1..], right);
      assert (left + right)[1..] == left[1..] + right;
    }
  }

  /** The first bits of the mixed register decide what is added to the rest. */
  lemma TableStep(g: Bits, register: Bits, b: Bits, rest: Bits)
    requires IsGenerator(g) && |register| == 32 && |b| <= 32
    ensures var low := Xor(register, b + Zeros(32 - |b|))[..|b|] + Zeros(32 - |b|);
            var next := Xor(FeedBits(g, low, Zeros(|b|)), Shr(register, |b|));
            FeedBits(g, register, b + rest) == FeedBits(g, next, rest)
  {
    hide FeedBits, FeedBit;
    var mixed := Xor(register, b + Zeros(32 - |b|));
    var low, high := mixed[..|b|] + Zeros(32 - |b|), Zeros(|b|) + mixed[|b|..];
    FeedIsShift(g, register, b);
    assert mixed == Xor(low, high) && Zeros(|b|) == Xor(Zeros(|b|), Zeros(|b|));
    FeedBitsLinear(g, low, high, Zeros(|b|), Zeros(|b|));
    FeedClear(g, high, |b|);
    assert Shr(high, |b|) == Shr(register, |b|);
    FeedBitsConcat(g, register, b, rest);
  }

  // ---------------------------------------------------------------- what the checksum detects

  /** A step can be undone: the polynomial's top bit tells which branch was taken. */
  lemma FeedBitInjective(g: Bits, r: Bits, s: Bits, bit: bool)
    requires IsGenerator(g) && |r| == |s| == 32 && FeedBit(g, r, bit) == FeedBit(g, s, bit)
    ensures r == s
  {
    assert FeedBit(g, r, bit)[31] == (r[0] != bit) && FeedBit(g, s, bit)[31] == (s[0] != bit);
    forall i | 1 <= i < 32 ensures r[i] == s[i] {
      assert Shr(r, 1)[i - 1] == r[i] && Shr(s, 1)[i - 1] == s[i];
      assert FeedBit(g, r, bit)[i - 1] == FeedBit(g, s, bit)[i - 1];
    }
  }

  lemma {:induction false} FeedBitsInjective(g: Bits, r: Bits, s: Bits, message: Bits)
    requires IsGenerator(g) && |r| == |s| == 32 && FeedBits(g, r, message) == FeedBits(g, s, message)
    ensures r == s
    decreases |message|
  {
    if message != [] {
      FeedBitsInjective(g, FeedBit(g, r, message[0]), FeedBit(g, s, message[0]), message[1..]);
      FeedBitInjective(g, r, s, message[0]);
    }
  }

  /** Up to 32 message bits are determined by the registers before and after them. */
  lemma FeedBitsInjectiveInMessage(g: Bits, r: Bits, u: Bits, v: Bits)
    requires IsGenerator(g) && |r| == 32 && |u| == |v| <= 32 && FeedBits(g, r, u) == FeedBits(g, r, v)
    ensures u == v
  {
    var pad := Zeros(32 - |u|);
    FeedIsShift(g, r, u);
    FeedIsShift(g, r, v);
    var x, y := Xor(r, u + pad), Xor(r, v + pad);
    FeedBitsInjective(g, x, y, Zeros(|u|));
    forall i | 0 <= i < |u| ensures u[i] == v[i] {
      assert x[i] == (r[i] != u[i]) && y[i] == (r[i] != v[i]);
    }
  }

  lemma {:induction false} MessageBitsConcat(a: seq<byte>, b: seq<byte>)
    ensures MessageBits(a + b) == MessageBits(a) + MessageBits(b)
  {
    hide FromNat;
    if a == [] {
      assert a + b == b;
    } else {
      assert (a + b)[0] == a[0] && (a + b)[1..] == a[1..] + b;
      MessageBitsConcat(a[1..], b);
      assert MessageBits(a + b) == FromNat(a[0], 8) + (MessageBits(a[1..]) + MessageBits(b));
    }
  }

  lemma {:induction false} MessageBitsInjective(a: seq<byte>, b: seq<byte>)
    requires MessageBits(a) == MessageBits(b)
    ensures a == b
  {
    if a != [] {
      var m := MessageBits(a);
      assert m[..8] == FromNat(a[0], 8) == FromNat(b[0], 8);
      assert Pow2(8) == 256;
      ToFromNat(a[0], 8);
      ToFromNat(b[0], 8);
      assert m[8..] == MessageBits(a[1..]) == MessageBits(b[1..]);
      MessageBitsInjective(a[1..], b[1..]);
    }
  }

  /**
   * Damage confined to at most four consecutive bytes changes the checksum, wherever it falls and
   * whatever surrounds it.
   */
  lemma BurstDetected(before: seq<byte>, u: seq<byte>, v: seq<byte>, after: seq<byte>)
    requires |u| == |v| <= 4 && u != v
    ensures Checksum(before + u + after) != Checksum(before + v + after)
  {
    BurstChanges(Generator(), Not(Zeros(32)), before, u, v, after);
    var p, q := FeedBits(Generator(), Not(Zeros(32)), MessageBits(before + u + after)),
                FeedBits(Generator(), Not(Zeros(32)), MessageBits(before + v + after));
    FromToNat(Not(p));
    FromToNat(Not(q));
    assert p == Not(Not(p)) && q == Not(Not(q));
  }

  lemma BurstChanges(g: Bits, start: Bits, before: seq<byte>, u: seq<byte>, v: seq<byte>, after: seq<byte>)
    requires IsGenerator(g) && |start| == 32 && |u| == |v| <= 4 && u != v
    ensures FeedBits(g, start, MessageBits(before + u + after)) != FeedBits(g, start, MessageBits(before + v + after))
  {
    hide FeedBits, MessageBits;
    FeedMessage(g, start, before, u, after);
    FeedMessage(g, start, before, v, after);
    assert MessageBits(u) != MessageBits(v) by {
      if MessageBits(u) == MessageBits(v) { MessageBitsInjective(u, v); }
    }
    BurstChangesBits(g, FeedBits(g, start, MessageBits(before)), MessageBits(u), MessageBits(v), MessageBits(after));
  }

  lemma BurstChangesBits(g: Bits, r: Bits, u: Bits, v: Bits, after: Bits)
    requires IsGenerator(g) && |r| == 32 && |u| == |v| <= 32 && u != v
    ensures FeedBits(g, FeedBits(g, r, u), after) != FeedBits(g, FeedBits(g, r, v), after)
  {
    var ru, rv := FeedBits(g, r, u), FeedBits(g, r, v);
    if FeedBits(g, ru, after) == FeedBits(g, rv, after) {
      FeedBitsInjective(g, ru, rv, after);
      FeedBitsInjectiveInMessage(g, r, u, v);
    }
  }

  lemma FeedMessage(g: Bits, start: Bits, a: seq<byte>, b: seq<byte>, c: seq<byte>)
    requires IsGenerator(g) && |start| == 32
    ensures FeedBits(g, start, MessageBits(a + b + c))
         == FeedBits(g, FeedBits(g, FeedBits(g, start, MessageBits(a)), MessageBits(b)), MessageBits(c))
  {
    MessageBitsConcat(a + b, c);
    MessageBitsConcat(a, b);
    FeedBitsConcat(g, start, MessageBits(a + b), MessageBits(c));
    FeedBitsConcat(g, start, MessageBits(a), MessageBits(b));
  }

  /** Contents of equal length that differ in exactly one byte never share a checksum. */
  lemma OneByteDetected(u: seq<byte>, v: seq<byte>, k: nat)
    requires |u| == |v| && k < |u| && u[k] != v[k]
    requires forall i :: 0 <= i < |u| && i != k ==> u[i] == v[i]
    ensures Checksum(u) != Checksum(v)
  {
    var before, after := u[..k], u[k + 1..];
    assert v[..k] == before && v[k + 1..] == after;
    assert u == before + [u[k]] + after && v == before + [v[k]] + after;
    BurstDetected(before, [u[k]], [v[k]], after);
  }
}
