/**
 * SHA-256 as specified by FIPS 180-4. A word is a 32-bit string, least significant bit first.
 */
module Sha256Spec {
  import opened Bytes
  import opened Utf8
  import opened Words

  type uint32 = n: int | 0 <= n < 0x1_0000_0000

  type Word = w: Bits | |w| == 32 witness Zeros(32)

  datatype Registers = Registers(a: Word, b: Word, c: Word, d: Word, e: Word, f: Word, g: Word, h: Word)

  /** Addition modulo 2^32 (section 2.2.1): add the integers the words denote, reduce, and convert back. */
  function Add(x: Word, y: Word): Word {
    FromNat((ToNat(x) + ToNat(y)) % 0x1_0000_0000, 32)
  }

  /** Circular right shift (section 2.2.2). */
  function RotR(x: Word, n: nat): Word
    requires n <= 32
  {
    x[n..] + x[..n]
  }

  // The six functions of section 4.1.2.

  function Ch(x: Word, y: Word, z: Word): Word {
    Xor(And(x, y), And(Not(x), z))
  }

  function Maj(x: Word, y: Word, z: Word): Word {
    Xor(Xor(And(x, y), And(x, z)), And(y, z))
  }

  function BigSigma0(x: Word): Word {
    Xor(Xor(RotR(x, 2), RotR(x, 13)), RotR(x, 22))
  }

  function BigSigma1(x: Word): Word {
    Xor(Xor(RotR(x, 6), RotR(x, 11)), RotR(x, 25))
  }

  function Sigma0(x: Word): Word {
    Xor(Xor(RotR(x, 7), RotR(x, 18)), Shr(x, 3))
  }

  function Sigma1(x: Word): Word {
    Xor(Xor(RotR(x, 17), RotR(x, 19)), Shr(x, 10))
  }

  /** The first t words of the message schedule (section 6.2.2, step 1). */
  function Schedule(block: seq<Word>, t: nat): (w: seq<Word>)
    requires |block| == 16
    ensures |w| == t
  {
    if t == 0 then []
    else
      var w := Schedule(block, t - 1);
      if t <= 16 then w + [block[t - 1]]
      else w + [Add(Add(Add(Sigma1(w[t - 3]), w[t - 8]), Sigma0(w[t - 16])), w[t - 17])]
  }

  /** One round (section 6.2.2, step 3). */
  function Round(r: Registers, k: Word, w: Word): Registers {
    var t1 := Add(Add(Add(Add(r.h, BigSigma1(r.e)), Ch(r.e, r.f, r.g)), k), w);
    var t2 := Add(BigSigma0(r.a), Maj(r.a, r.b, r.c));
    Registers(Add(t1, t2), r.a, r.b, r.c, Add(r.d, t1), r.e, r.f, r.g)
  }

  function Rounds(k: seq<Word>, r: Registers, w: seq<Word>): Registers
    requires |w| <= |k|
  {
    if w == [] then r
    else Round(Rounds(k, r, w[..|w| - 1]), k[|w| - 1], w[|w| - 1])
  }

  /** The next intermediate hash value (section 6.2.2, steps 2 to 4). */
  function Compress(k: seq<Word>, hash: Registers, block: seq<Word>): Registers
    requires |k| == 64 && |block| == 16
  {
    var r := Rounds(k, hash, Schedule(block, 64));
    Registers(Add(r.a, hash.a), Add(r.b, hash.b), Add(r.c, hash.c), Add(r.d, hash.d),
              Add(r.e, hash.e), Add(r.f, hash.f), Add(r.g, hash.g), Add(r.h, hash.h))
  }

  /** The block of sixteen big-endian words at a byte offset. */
  function Block(padded: seq<byte>, offset: nat): (b: seq<Word>)
    requires offset + 64 <= |padded|
    ensures |b| == 16
  {
    seq(16, i requires 0 <= i < 16 => FromNat(BigEndian32(padded, offset + 4 * i), 32))
  }

  function BigEndian32(s: seq<byte>, i: nat): (n: nat)
    requires i + 4 <= |s|
    ensures n < U32
  {
    16777216 * (s[i] as int) + 65536 * (s[i + 1] as int) + 256 * (s[i + 2] as int) + s[i + 3] as int
  }

  function Blocks(k: seq<Word>, initial: Registers, padded: seq<byte>, count: nat): Registers
    requires |k| == 64 && 64 * count <= |padded|
  {
    if count == 0 then initial
    else Compress(k, Blocks(k, initial, padded, count - 1), Block(padded, 64 * (count - 1)))
  }

  /** The padded message fills whole blocks. */
  predicate FillsBlocks(length: nat, zeroBytes: nat) {
    (length + 1 + zeroBytes + 8) % 64 == 0
  }

  /** The number of zero bytes between the 0x80 byte and the length field: the least that will do (section 5.1.1). */
  function ZeroBytes(length: nat): (k: nat)
    ensures FillsBlocks(length, k)
    ensures forall j :: 0 <= j < k ==> !FillsBlocks(length, j)
  {
    var partial := (length + 9) % 64;
    if partial == 0 then 0 else 64 - partial
  }

  function BigEndian64(n: nat): (s: seq<byte>)
    ensures |s| == 8
  {
    BigEndianBytes(n / U32 % U32) + BigEndianBytes(n % U32)
  }

  function BigEndianBytes(n: nat): (s: seq<byte>)
    requires n < U32
    ensures |s| == 4 && BigEndian32(s, 0) == n
  {
    [n / 256 / 256 / 256, n / 256 / 256 % 256, n / 256 % 256, n % 256]
  }

  function ZeroBuffer(n: nat): (z: seq<byte>)
    ensures |z| == n && forall i :: 0 <= i < n ==> z[i] == 0
  {
    seq(n, i => 0)
  }

  function Pad(message: seq<byte>): (p: seq<byte>)
    ensures |p| == |message| + 1 + ZeroBytes(|message|) + 8
    ensures |p| % 64 == 0
  {
    assert FillsBlocks(|message|, ZeroBytes(|message|));
    message + [0x80] + ZeroBuffer(ZeroBytes(|message|)) + BigEndian64(8 * |message|)
  }

  /** The constants of section 4.2.2 and the initial hash value of section 5.3.3, as integers. */
  const K: seq<uint32> := [
    0x428a2f98, 0x71374491, 0xb5c0fbcf, 0xe9b5dba5, 0x3956c25b, 0x59f111f1, 0x923f82a4, 0xab1c5ed5,
    0xd807aa98, 0x12835b01, 0x243185be, 0x550c7dc3, 0x72be5d74, 0x80deb1fe, 0x9bdc06a7, 0xc19bf174,
    0xe49b69c1, 0xefbe4786, 0x0fc19dc6, 0x240ca1cc, 0x2de92c6f, 0x4a7484aa, 0x5cb0a9dc, 0x76f988da,
    0x983e5152, 0xa831c66d, 0xb00327c8, 0xbf597fc7, 0xc6e00bf3, 0xd5a79147, 0x06ca6351, 0x14292967
  ] + [
    0x27b70a85, 0x2e1b2138, 0x4d2c6dfc, 0x53380d13, 0x650a7354, 0x766a0abb, 0x81c2c92e, 0x92722c85,
    0xa2bfe8a1, 0xa81a664b, 0xc24b8b70, 0xc76c51a3, 0xd192e819, 0xd6990624, 0xf40e3585, 0x106aa070,
    0x19a4c116, 0x1e376c08, 0x2748774c, 0x34b0bcb5, 0x391c0cb3, 0x4ed8aa4a, 0x5b9cca4f, 0x682e6ff3,
    0x748f82ee, 0x78a5636f, 0x84c87814, 0x8cc70208, 0x90befffa, 0xa4506ceb, 0xbef9a3f7, 0xc67178f2
  ]

  const H0: seq<uint32> := [
    0x6a09e667, 0xbb67ae85, 0x3c6ef372, 0xa54ff53a, 0x510e527f, 0x9b05688c, 0x1f83d9ab, 0x5be0cd19
  ]

  function WordsOf(numbers: seq<uint32>): (w: seq<Word>)
    ensures |w| == |numbers|
  {
    seq(|numbers|, i requires 0 <= i < |numbers| => FromNat(numbers[i], 32))
  }

  function RegistersOf(w: seq<Word>): Registers
    requires |w| == 8
  {
    Registers(w[0], w[1], w[2], w[3], w[4], w[5], w[6], w[7])
  }

  function RegisterWords(r: Registers): (w: seq<Word>)
    ensures |w| == 8
  {
    [r.a, r.b, r.c, r.d, r.e, r.f, r.g, r.h]
  }

  /** The eight words of the message digest. */
  function Sha256(message: seq<byte>): (digest: seq<Word>)
    ensures |digest| == 8
  {
    var padded := Pad(message);
    RegisterWords(Blocks(WordsOf(K), RegistersOf(WordsOf(H0)), padded, |padded| / 64))
  }

  function HexDigit(n: nat): char
    requires n < 16
  {
    "0123456789abcdef"[n]
  }

  /** Eight hexadecimal digits, most significant first. */
  function HexWord(n: nat, digits: nat): (s: string)
    ensures |s| == digits
  {
    if digits == 0 then "" else HexWord(n / 16, digits - 1) + [HexDigit(n % 16)]
  }

  function Hex(digest: seq<Word>): (s: string)
    ensures |s| == 8 * |digest|
  {
    if digest == [] then "" else HexWord(ToNat(digest[0]), 8) + Hex(digest[1..])
  }

  /** The digest of a text, in hexadecimal. */
  function TextDigest(text: string): (s: string)
    ensures |s| == 64
  {
    Hex(Sha256(Encode(text)))
  }
}

/**
 * `sha256Hex`, on JavaScript Numbers: bitwise results are signed, sums are formed without overflow
 * and only then reduced by `>>> 0`, and a Uint32Array element reduces whatever is stored in it.
 */
module Sha256 {
  import opened Bytes
  import opened Utf8
  import opened Words
  import opened JsNumber
  import opened Sha256Spec

  /** Every integer of smaller magnitude is a Number exactly. */
  const MAX_SAFE: int := 0x20_0000_0000_0000

  function RotateRight(value: int, shift: nat): int
    requires 0 < shift < 32
  {
    JsOr(JsShr(value, shift), JsShl(value, 32 - shift))
  }

  lemma PatternRotate(value: int, shift: nat)
    requires 0 < shift < 32
    ensures Pattern(RotateRight(value, shift)) == RotR(Pattern(value), shift)
  {
    hide Pattern, ToNat, FromNat, JsOr, JsShr, JsShl, Pow2;
    var p := Pattern(value);
    PatternOr(JsShr(value, shift), JsShl(value, 32 - shift));
    PatternShr(value, shift);
    PatternShl(value, 32 - shift);
    assert Or(Shr(p, shift), Shl(p, 32 - shift)) == RotR(p, shift);
  }

  lemma PatternIs(x: int)
    ensures ToNat(Pattern(x)) == ToUint32(x)
  {
    hide ToNat, FromNat, Pow2;
    Pow2Values();
    ToFromNat(ToUint32(x), 32);
  }

  /** A JavaScript sum denotes the FIPS sum of what its terms denote. */
  lemma PatternAdd(x: int, y: int)
    ensures Pattern(x + y) == Add(Pattern(x), Pattern(y))
  {
    hide ToNat, FromNat, Pow2;
    PatternIs(x);
    PatternIs(y);
    assert ToUint32(x + y) == (ToUint32(x) + ToUint32(y)) % TWO32;
  }

  lemma PatternUnsigned(x: int)
    ensures JsShr(x, 0) == ToNat(Pattern(x)) && Pattern(JsShr(x, 0)) == Pattern(x)
    ensures 0 <= JsShr(x, 0) < TWO32
  {
    hide ToNat, FromNat, Pattern, Pow2;
    PatternShr(x, 0);
    assert Shr(Pattern(x), 0) == Pattern(x);
  }

  // ---------------------------------------------------------------- the source's expressions

  lemma PatternSigma0(x: int)
    ensures Pattern(JsXor(JsXor(RotateRight(x, 7), RotateRight(x, 18)), JsShr(x, 3))) == Sigma0(Pattern(x))
  {
    hide ToNat, FromNat, Pattern, Pow2, JsXor, JsShr, RotateRight, RotR, Xor, Shr;
    PatternRotate(x, 7);
    PatternRotate(x, 18);
    PatternShr(x, 3);
    PatternXor(RotateRight(x, 7), RotateRight(x, 18));
    PatternXor(JsXor(RotateRight(x, 7), RotateRight(x, 18)), JsShr(x, 3));
  }

  lemma PatternSigma1(x: int)
    ensures Pattern(JsXor(JsXor(RotateRight(x, 17), RotateRight(x, 19)), JsShr(x, 10))) == Sigma1(Pattern(x))
  {
    hide ToNat, FromNat, Pattern, Pow2, JsXor, JsShr, RotateRight, RotR, Xor, Shr;
    PatternRotate(x, 17);
    PatternRotate(x, 19);
    PatternShr(x, 10);
    PatternXor(RotateRight(x, 17), RotateRight(x, 19));
    PatternXor(JsXor(RotateRight(x, 17), RotateRight(x, 19)), JsShr(x, 10));
  }

  lemma PatternBigSigma(x: int, p: nat, q: nat, r: nat)
    requires 0 < p < 32 && 0 < q < 32 && 0 < r < 32
    ensures Pattern(JsXor(JsXor(RotateRight(x, p), RotateRight(x, q)), RotateRight(x, r)))
         == Xor(Xor(RotR(Pattern(x), p), RotR(Pattern(x), q)), RotR(Pattern(x), r))
  {
    hide ToNat, FromNat, Pattern, Pow2, JsXor, JsShr, RotateRight, RotR, Xor, Shr;
    PatternRotate(x, p);
    PatternRotate(x, q);
    PatternRotate(x, r);
    PatternXor(RotateRight(x, p), RotateRight(x, q));
    PatternXor(JsXor(RotateRight(x, p), RotateRight(x, q)), RotateRight(x, r));
  }

  lemma PatternChoice(e: int, f: int, g: int)
    ensures Pattern(JsXor(JsAnd(e, f), JsAnd(JsNot(e), g))) == Ch(Pattern(e), Pattern(f), Pattern(g))
  {
    hide ToNat, FromNat, Pattern, Pow2, JsXor, JsAnd, JsNot, Xor, And, Not;
    PatternAnd(e, f);
    PatternNot(e);
    PatternAnd(JsNot(e), g);
    PatternXor(JsAnd(e, f), JsAnd(JsNot(e), g));
  }

  lemma PatternMajority(a: int, b: int, c: int)
    ensures Pattern(JsXor(JsXor(JsAnd(a, b), JsAnd(a, c)), JsAnd(b, c))) == Maj(Pattern(a), Pattern(b), Pattern(c))
  {
    hide ToNat, FromNat, Pattern, Pow2, JsXor, JsAnd, Xor, And;
    PatternAnd(a, b);
    PatternAnd(a, c);
    PatternAnd(b, c);
    PatternXor(JsAnd(a, b), JsAnd(a, c));
    PatternXor(JsXor(JsAnd(a, b), JsAnd(a, c)), JsAnd(b, c));
  }

  function PatternsOf(numbers: seq<int>): (w: seq<Word>)
    ensures |w| == |numbers|
  {
    seq(|numbers|, i requires 0 <= i < |numbers| => Pattern(numbers[i]))
  }

  ghost predicate Unsigned(numbers: seq<int>) {
    forall i :: 0 <= i < |numbers| ==> 0 <= numbers[i] < TWO32
  }

  /** The schedule word computed at `index`, from the source's left-to-right sum of Numbers. */
  lemma ScheduleWord(block: seq<Word>, index: nat, w16: int, s0: int, w7: int, s1: int)
    requires |block| == 16 && 16 <= index
    requires var w := Schedule(block, index);
             && Pattern(w16) == w[index - 16] && Pattern(w7) == w[index - 7]
             && Pattern(s0) == Sigma0(w[index - 15]) && Pattern(s1) == Sigma1(w[index - 2])
    ensures Schedule(block, index + 1)
         == Schedule(block, index) + [Pattern(JsShr(w16 + s0 + w7 + s1, 0))]
  {
    hide ToNat, FromNat, Pattern, Pow2, JsShr, Sigma0, Sigma1, Add;
    PatternAdd(s1, w7);
    PatternAdd(s1 + w7, s0);
    PatternAdd(s1 + w7 + s0, w16);
    PatternUnsigned(w16 + s0 + w7 + s1);
    assert s1 + w7 + s0 + w16 == w16 + s0 + w7 + s1;
  }

  lemma ScheduleStart(block: seq<Word>)
    requires |block| == 16
    ensures Schedule(block, 0) == []
  {
  }

  lemma ScheduleLoad(block: seq<Word>, index: nat)
    requires |block| == 16 && index < 16
    ensures Schedule(block, index + 1) == Schedule(block, index) + [block[index]]
  {
    hide Sigma0, Sigma1, Add;
  }

  lemma BlockWord(padded: seq<byte>, offset: nat, index: nat)
    requires offset + 64 <= |padded| && index < 16
    ensures Block(padded, offset)[index] == Pattern(BigEndian32(padded, offset + index * 4))
  {
    hide FromNat, BigEndian32;
  }

  method ExpandSchedule(view: array<byte>, offset: nat, words: array<int>)
    requires offset + 64 <= view.Length && words.Length == 64
    modifies words
    ensures Unsigned(words[..]) && PatternsOf(words[..]) == Schedule(Block(view[..], offset), 64)
  {
    hide ToNat, FromNat, Pattern, Pow2, JsShr, JsXor, RotateRight, Sigma0, Sigma1, Add, Schedule, BigEndian32, Block;
    ghost var block := Block(view[..], offset);
    ScheduleStart(block);
    for index := 0 to 16
      invariant Unsigned(words[..index]) && PatternsOf(words[..index]) == Schedule(block, index)
    {
      words[index] := BigEndian32(view[..], offset + index * 4);
      BlockWord(view[..], offset, index);
      ScheduleLoad(block, index);
      assert words[..index + 1] == words[..index] + [words[index]];
    }
    for index := 16 to 64
      invariant Unsigned(words[..index]) && PatternsOf(words[..index]) == Schedule(block, index)
    {
      var previous15 := words[index - 15];
      var previous2 := words[index - 2];
      var sigma0 := JsXor(JsXor(RotateRight(previous15, 7), RotateRight(previous15, 18)), JsShr(previous15, 3));
      var sigma1 := JsXor(JsXor(RotateRight(previous2, 17), RotateRight(previous2, 19)), JsShr(previous2, 10));
      PatternSigma0(previous15);
      PatternSigma1(previous2);
      ghost var w := PatternsOf(words[..index]);
      assert w[index - 15] == Pattern(previous15) && w[index - 2] == Pattern(previous2);
      assert w[index - 16] == Pattern(words[index - 16]) && w[index - 7] == Pattern(words[index - 7]);
      ScheduleWord(block, index, words[index - 16], sigma0, words[index - 7], sigma1);
      var sum := words[index - 16] + sigma0 + words[index - 7] + sigma1;
      assert -MAX_SAFE < sum < MAX_SAFE;
      PatternUnsigned(sum);
      words[index] := JsShr(sum, 0);
      assert words[..index + 1] == words[..index] + [words[index]];
    }
    assert words[..] == words[..64];
  }

  lemma RoundsStep(k: seq<Word>, r: Registers, w: seq<Word>, index: nat)
    requires index < |w| <= |k|
    ensures Rounds(k, r, w[..index + 1]) == Round(Rounds(k, r, w[..index]), k[index], w[index])
  {
    hide Round;
    assert w[..index + 1][..index] == w[..index];
  }

  function Hold(a: int, b: int, c: int, d: int, e: int, f: int, g: int, h: int): Registers {
    Registers(Pattern(a), Pattern(b), Pattern(c), Pattern(d), Pattern(e), Pattern(f), Pattern(g), Pattern(h))
  }

  /** One turn of the source's inner loop is one round. */
  lemma RoundTurn(a: int, b: int, c: int, d: int, e: int, f: int, g: int, h: int, k: int, w: int,
                  sum1: int, choice: int, temp1: int, sum0: int, majority: int, temp2: int)
    requires sum1 == JsXor(JsXor(RotateRight(e, 6), RotateRight(e, 11)), RotateRight(e, 25))
    requires choice == JsXor(JsAnd(e, f), JsAnd(JsNot(e), g))
    requires temp1 == JsShr(h + sum1 + choice + k + w, 0)
    requires sum0 == JsXor(JsXor(RotateRight(a, 2), RotateRight(a, 13)), RotateRight(a, 22))
    requires majority == JsXor(JsXor(JsAnd(a, b), JsAnd(a, c)), JsAnd(b, c))
    requires temp2 == JsShr(sum0 + majority, 0)
    ensures Hold(JsShr(temp1 + temp2, 0), a, b, c, JsShr(d + temp1, 0), e, f, g)
         == Round(Hold(a, b, c, d, e, f, g, h), Pattern(k), Pattern(w))
  {
    hide ToNat, FromNat, Pattern, Pow2, JsXor, JsShr, JsAnd, JsNot, RotateRight, RotR, Xor, Shr, Add, Ch, Maj;
    PatternBigSigma(e, 6, 11, 25);
    PatternBigSigma(a, 2, 13, 22);
    PatternChoice(e, f, g);
    PatternMajority(a, b, c);
    PatternAdd(h, sum1);
    PatternAdd(h + sum1, choice);
    PatternAdd(h + sum1 + choice, k);
    PatternAdd(h + sum1 + choice + k, w);
    PatternUnsigned(h + sum1 + choice + k + w);
    PatternAdd(sum0, majority);
    PatternUnsigned(sum0 + majority);
    PatternAdd(temp1, temp2);
    PatternUnsigned(temp1 + temp2);
    PatternAdd(d, temp1);
    PatternUnsigned(d + temp1);
  }

  /** The inner loop: 64 rounds on eight local variables. */
  method RunRounds(state: seq<int>, words: array<int>)
    returns (a: int, b: int, c: int, d: int, e: int, f: int, g: int, h: int)
    requires |state| == 8 && words.Length == 64
    requires Unsigned(state) && Unsigned(words[..])
    ensures Hold(a, b, c, d, e, f, g, h) == Rounds(WordsOf(K), RegistersOf(PatternsOf(state)), PatternsOf(words[..]))
  {
    hide ToNat, FromNat, Pattern, Pow2, JsXor, JsShr, JsAnd, JsNot, RotateRight, Add, Round, Rounds;
    a, b, c, d := state[0], state[1], state[2], state[3];
    e, f, g, h := state[4], state[5], state[6], state[7];
    ghost var k, w, start := WordsOf(K), PatternsOf(words[..]), Hold(a, b, c, d, e, f, g, h);
    assert start == RegistersOf(PatternsOf(state));
    RoundsStart(k, start, w);
    for index := 0 to 64
      invariant Hold(a, b, c, d, e, f, g, h) == Rounds(k, start, w[..index])
      invariant 0 <= a < TWO32 && 0 <= b < TWO32 && 0 <= c < TWO32 && 0 <= d < TWO32
      invariant 0 <= e < TWO32 && 0 <= f < TWO32 && 0 <= g < TWO32 && 0 <= h < TWO32
    {
      var sum1 := JsXor(JsXor(RotateRight(e, 6), RotateRight(e, 11)), RotateRight(e, 25));
      var choice := JsXor(JsAnd(e, f), JsAnd(JsNot(e), g));
      RoundConstant(index);
      assert -MAX_SAFE < h + sum1 + choice + K[index] + words[index] < MAX_SAFE by {
        assert words[index] == words[..][index];
      }
      var temp1 := JsShr(h + sum1 + choice + K[index] + words[index], 0);
      var sum0 := JsXor(JsXor(RotateRight(a, 2), RotateRight(a, 13)), RotateRight(a, 22));
      var majority := JsXor(JsXor(JsAnd(a, b), JsAnd(a, c)), JsAnd(b, c));
      var temp2 := JsShr(sum0 + majority, 0);
      RoundTurn(a, b, c, d, e, f, g, h, K[index], words[index], sum1, choice, temp1, sum0, majority, temp2);
      RoundsStep(k, start, w, index);
      PatternUnsigned(d + temp1);
      PatternUnsigned(temp1 + temp2);
      h := g;
      g := f;
      f := e;
      e := JsShr(d + temp1, 0);
      d := c;
      c := b;
      b := a;
      a := JsShr(temp1 + temp2, 0);
    }
    assert w[..64] == w;
  }

  method CompressBlock(state: array<int>, words: array<int>, ghost block: seq<Word>)
    requires state != words && state.Length == 8 && words.Length == 64 && |block| == 16
    requires Unsigned(state[..]) && Unsigned(words[..])
    requires PatternsOf(words[..]) == Schedule(block, 64)
    modifies state
    ensures Unsigned(state[..])
    ensures RegistersOf(PatternsOf(state[..]))
         == Compress(WordsOf(K), RegistersOf(PatternsOf(old(state[..]))), block)
  {
    hide ToNat, FromNat, Pattern, Pow2, JsShr, Add, Rounds, Schedule, Compress;
    ghost var was := state[..];
    var a, b, c, d, e, f, g, h := RunRounds(state[..], words);
    AddInto(state, a, b, c, d, e, f, g, h);
    FoldAll(was, a, b, c, d, e, f, g, h, state[..]);
    CompressIs(WordsOf(K), RegistersOf(PatternsOf(was)), block, Hold(a, b, c, d, e, f, g, h));
  }

  /** The eight stores that end the block loop. */
  method AddInto(state: array<int>, a: int, b: int, c: int, d: int, e: int, f: int, g: int, h: int)
    requires state.Length == 8
    modifies state
    ensures var s := old(state[..]);
      state[..] == [JsShr(s[0] + a, 0), JsShr(s[1] + b, 0), JsShr(s[2] + c, 0), JsShr(s[3] + d, 0),
                    JsShr(s[4] + e, 0), JsShr(s[5] + f, 0), JsShr(s[6] + g, 0), JsShr(s[7] + h, 0)]
  {
    hide JsShr;
    state[0] := JsShr(state[0] + a, 0);
    state[1] := JsShr(state[1] + b, 0);
    state[2] := JsShr(state[2] + c, 0);
    state[3] := JsShr(state[3] + d, 0);
    state[4] := JsShr(state[4] + e, 0);
    state[5] := JsShr(state[5] + f, 0);
    state[6] := JsShr(state[6] + g, 0);
    state[7] := JsShr(state[7] + h, 0);
  }

  lemma FoldAll(s: seq<int>, a: int, b: int, c: int, d: int, e: int, f: int, g: int, h: int, now: seq<int>)
    requires |s| == 8
    requires now == [JsShr(s[0] + a, 0), JsShr(s[1] + b, 0), JsShr(s[2] + c, 0), JsShr(s[3] + d, 0),
                     JsShr(s[4] + e, 0), JsShr(s[5] + f, 0), JsShr(s[6] + g, 0), JsShr(s[7] + h, 0)]
    ensures Unsigned(now)
    ensures RegistersOf(PatternsOf(now))
         == Registers(Add(Pattern(a), Pattern(s[0])), Add(Pattern(b), Pattern(s[1])), Add(Pattern(c), Pattern(s[2])),
                      Add(Pattern(d), Pattern(s[3])), Add(Pattern(e), Pattern(s[4])), Add(Pattern(f), Pattern(s[5])),
                      Add(Pattern(g), Pattern(s[6])), Add(Pattern(h), Pattern(s[7])))
  {
    hide ToNat, FromNat, Pattern, Pow2, JsShr, Add;
    Fold(s[0], a);
    Fold(s[1], b);
    Fold(s[2], c);
    Fold(s[3], d);
    Fold(s[4], e);
    Fold(s[5], f);
    Fold(s[6], g);
    Fold(s[7], h);
  }

  lemma CompressIs(k: seq<Word>, hash: Registers, block: seq<Word>, r: Registers)
    requires |k| == 64 && |block| == 16 && r == Rounds(k, hash, Schedule(block, 64))
    ensures Compress(k, hash, block)
         == Registers(Add(r.a, hash.a), Add(r.b, hash.b), Add(r.c, hash.c), Add(r.d, hash.d),
                      Add(r.e, hash.e), Add(r.f, hash.f), Add(r.g, hash.g), Add(r.h, hash.h))
  {
    hide Rounds, Schedule, Add;
  }

  lemma Fold(x: int, y: int)
    ensures Pattern(JsShr(x + y, 0)) == Add(Pattern(y), Pattern(x)) && 0 <= JsShr(x + y, 0) < TWO32
  {
    hide ToNat, FromNat, Pattern, Pow2, JsShr, Add;
    PatternAdd(y, x);
    PatternUnsigned(x + y);
    assert x + y == y + x;
  }

  lemma RoundsStart(k: seq<Word>, r: Registers, w: seq<Word>)
    requires |w| <= |k|
    ensures Rounds(k, r, w[..0]) == r
  {
  }

  lemma RoundConstant(index: nat)
    requires index < 64
    ensures 0 <= K[index] < TWO32 && WordsOf(K)[index] == Pattern(K[index])
  {
    hide FromNat;
  }

  // ---------------------------------------------------------------- padding

  /** `Math.ceil((length + 9) / 64) * 64`. */
  function PaddedLength(length: nat): (n: nat)
    ensures n == length + 1 + ZeroBytes(length) + 8
  {
    var q, r := (length + 9) / 64, (length + 9) % 64;
    assert length + 9 == 64 * q + r;
    assert (length + 9 + 63) / 64 == if r == 0 then q else q + 1;
    (length + 9 + 63) / 64 * 64
  }

  method SetUint32(view: array<byte>, offset: nat, value: nat)
    requires offset + 4 <= view.Length
    modifies view
    ensures view[..] == old(view[..offset]) + BigEndianBytes(value % U32) + old(view[offset + 4..])
  {
    var bytes := BigEndianBytes(value % U32);
    view[offset] := bytes[0];
    view[offset + 1] := bytes[1];
    view[offset + 2] := bytes[2];
    view[offset + 3] := bytes[3];
  }

  /** `padded.set(bytes)`. */
  method SetBytes(padded: array<byte>, bytes: seq<byte>)
    requires |bytes| <= padded.Length
    modifies padded
    ensures padded[..] == bytes + old(padded[|bytes|..])
  {
    for i := 0 to |bytes|
      invariant forall j :: 0 <= j < i ==> padded[j] == bytes[j]
      invariant forall j :: i <= j < padded.Length ==> padded[j] == old(padded[j])
    {
      padded[i] := bytes[i];
    }
  }

  method PadMessage(bytes: seq<byte>) returns (padded: array<byte>)
    ensures fresh(padded) && padded[..] == Pad(bytes)
  {
    hide PaddedLength, ZeroBytes, BigEndianBytes, BigEndian64, Pad, FillsBlocks;
    var paddedLength := PaddedLength(|bytes|);
    padded := new byte[paddedLength](i => 0);
    SetBytes(padded, bytes);
    padded[|bytes|] := 0x80;
    ghost var start := bytes + [0x80];
    ghost var rest := padded[|bytes| + 1..];
    assert forall i :: 0 <= i < |rest| ==> rest[i] == 0;
    assert padded[..] == start + rest;
    StoreLength(bytes, padded);
  }

  /** The two `setUint32` calls that store the bit length. */
  method StoreLength(bytes: seq<byte>, padded: array<byte>)
    requires padded.Length == |bytes| + 1 + ZeroBytes(|bytes|) + 8
    requires padded[..|bytes| + 1] == bytes + [0x80]
    requires forall i :: |bytes| + 1 <= i < padded.Length ==> padded[i] == 0
    modifies padded
    ensures padded[..] == Pad(bytes)
  {
    hide PaddedLength, ZeroBytes, BigEndianBytes, BigEndian64, Pad, FillsBlocks;
    var paddedLength := padded.Length;
    ghost var start := bytes + [0x80];
    assert padded[..] == start + padded[|start|..];
    var bitLength := |bytes| * 8;
    var high, low := bitLength / U32, bitLength % U32;
    SetUint32(padded, paddedLength - 8, high);
    ghost var middle := start + ZeroBuffer(paddedLength - |start| - 8);
    assert padded[..] == middle + BigEndianBytes(high % U32) + ZeroBuffer(4);
    SetUint32(padded, paddedLength - 4, low);
    assert low % U32 == low;
    assert padded[..] == middle + (BigEndianBytes(high % U32) + BigEndianBytes(low));
    PadIs(bytes, middle);
  }

  lemma PadIs(message: seq<byte>, middle: seq<byte>)
    requires middle == message + [0x80] + ZeroBuffer(ZeroBytes(|message|))
    ensures var n := |message| * 8;
      Pad(message) == middle + (BigEndianBytes(n / U32 % U32) + BigEndianBytes(n % U32))
  {
    hide ZeroBytes, BigEndianBytes;
  }

  // ---------------------------------------------------------------- hexadecimal text

  /** `toString(16)` of a non-negative integer. */
  function ToString16(n: nat): (s: string)
    ensures |s| >= 1
  {
    if n < 16 then [HexDigit(n)] else ToString16(n / 16) + [HexDigit(n % 16)]
  }

  function PadStart(s: string, length: nat): string {
    if |s| >= length then s else seq(length - |s|, i => '0') + s
  }

  /** `Array.from(state, (word) => word.toString(16).padStart(8, "0")).join("")`. */
  function HexText(state: seq<nat>): string {
    if state == [] then "" else PadStart(ToString16(state[0]), 8) + HexText(state[1..])
  }

  lemma {:induction false} HexWordIs(n: nat, digits: nat)
    requires digits >= 1 && n < Pow2(4 * digits)
    ensures |ToString16(n)| <= digits && PadStart(ToString16(n), digits) == HexWord(n, digits)
  {
    hide HexDigit, Pow2;
    assert Pow2(4 * digits) == 16 * Pow2(4 * (digits - 1)) by { SixteenTimes(digits); }
    if n < 16 {
      HexZero(digits - 1);
      assert HexWord(n, digits) == HexWord(0, digits - 1) + [HexDigit(n)];
    } else {
      assert n / 16 < Pow2(4 * (digits - 1));
      assert digits > 1 by { if digits == 1 { assert Pow2(0) == 1 by { PowZero(); } } }
      HexWordIs(n / 16, digits - 1);
    }
  }

  lemma SixteenTimes(digits: nat)
    requires digits >= 1
    ensures Pow2(4 * digits) == 16 * Pow2(4 * (digits - 1))
  {
    Pow2Add(4, 4 * (digits - 1));
    assert Pow2(4) == 16;
  }

  lemma PowZero()
    ensures Pow2(0) == 1
  {
  }

  lemma {:induction false} HexZero(digits: nat)
    ensures HexWord(0, digits) == seq(digits, i => '0')
  {
    if digits > 0 { HexZero(digits - 1); }
  }

  lemma {:induction false} HexTextIs(state: seq<nat>)
    requires forall i :: 0 <= i < |state| ==> state[i] < TWO32
    ensures HexText(state) == Hex(PatternsOf(state))
  {
    hide HexWord, ToString16, ToNat, FromNat, Pattern, Pow2;
    if state != [] {
      PatternIs(state[0]);
      Pow2Values();
      assert 4 * 8 == 32;
      HexWordIs(state[0], 8);
      assert PatternsOf(state)[1..] == PatternsOf(state[1..]);
      HexTextIs(state[1..]);
    }
  }

  // ---------------------------------------------------------------- the digest

  /** `sha256Hex`: SHA-256 of the UTF-8 encoding of a string, in lower-case hexadecimal. */
  method Sha256Hex(input: string) returns (digest: string)
    ensures digest == TextDigest(input)
  {
    hide Encode, Hex, Sha256Spec.Sha256;
    var bytes := Encode(input);
    digest := HashBytes(bytes);
  }

  method HashBytes(bytes: seq<byte>) returns (digest: string)
    ensures digest == Hex(Sha256(bytes))
  {
    hide ToNat, FromNat, Pattern, Pow2, Pad, Blocks, Compress, Schedule, Block, HexText, Hex, Sha256Spec.Sha256;
    var padded := PadMessage(bytes);
    ghost var message := padded[..];
    var state := new int[8](i requires 0 <= i < 8 => H0[i]);
    var words := new int[64](i => 0);
    ghost var k, initial := WordsOf(K), RegistersOf(WordsOf(H0));
    InitialState(state[..]);
    BlocksStart(k, initial, message);
    var offset := 0;
    while offset < padded.Length
      invariant padded[..] == message && offset <= padded.Length && offset % 64 == 0
      invariant Unsigned(state[..])
      invariant RegistersOf(PatternsOf(state[..])) == Blocks(k, initial, message, offset / 64)
    {
      ghost var count := offset / 64;
      assert offset == 64 * count && offset + 64 <= padded.Length;
      ExpandSchedule(padded, offset, words);
      CompressBlock(state, words, Block(message, offset));
      BlocksStep(k, initial, message, count);
      offset := offset + 64;
      assert offset / 64 == count + 1;
    }
    HexTextIs(state[..]);
    digest := HexText(state[..]);
    DigestIs(bytes, RegistersOf(PatternsOf(state[..])), PatternsOf(state[..]));
  }

  lemma InitialState(state: seq<int>)
    requires state == H0
    ensures Unsigned(state) && PatternsOf(state) == WordsOf(H0)
  {
    hide FromNat;
  }

  lemma BlocksStart(k: seq<Word>, initial: Registers, padded: seq<byte>)
    requires |k| == 64
    ensures Blocks(k, initial, padded, 0) == initial
  {
  }

  lemma BlocksStep(k: seq<Word>, initial: Registers, padded: seq<byte>, count: nat)
    requires |k| == 64 && 64 * (count + 1) <= |padded|
    ensures Blocks(k, initial, padded, count + 1)
         == Compress(k, Blocks(k, initial, padded, count), Block(padded, 64 * count))
  {
    hide Compress, Block;
  }

  lemma DigestIs(message: seq<byte>, r: Registers, w: seq<Word>)
    requires |w| == 8 && r == RegistersOf(w)
    requires r == Blocks(WordsOf(K), RegistersOf(WordsOf(H0)), Pad(message), |Pad(message)| / 64)
    ensures Sha256Spec.Sha256(message) == w
  {
    hide Blocks, Pad, WordsOf;
  }
}
