/** Where the constants of SHA-256 come from: sections 4.2.2 and 5.3.3 of FIPS 180-4. */
module Sha256Constants {

  import opened Sha256Spec

  // ---------------------------------------------------------------- the first sixty-four primes

  predicate Factors(n: nat, d: nat, e: nat) {
    d >= 2 && e >= 2 && d * e == n
  }

  ghost predicate IsPrime(n: nat) {
    n >= 2 && forall d: nat, e: nat :: !Factors(n, d, e)
  }

  const PRIMES0: seq<nat> := [2, 3, 5, 7, 11, 13, 17, 19]
  const PRIMES1: seq<nat> := [23, 29, 31, 37, 41, 43, 47, 53]
  const PRIMES2: seq<nat> := [59, 61, 67, 71, 73, 79, 83, 89]
  const PRIMES3: seq<nat> := [97, 101, 103, 107, 109, 113, 127, 131]
  const PRIMES4: seq<nat> := [137, 139, 149, 151, 157, 163, 167, 173]
  const PRIMES5: seq<nat> := [179, 181, 191, 193, 197, 199, 211, 223]
  const PRIMES6: seq<nat> := [227, 229, 233, 239, 241, 251, 257, 263]
  const PRIMES7: seq<nat> := [269, 271, 277, 281, 283, 293, 307, 311]

  const PRIMES := PRIMES0 + PRIMES1 + PRIMES2 + PRIMES3 + PRIMES4 + PRIMES5 + PRIMES6 + PRIMES7

  predicate Passes(n: nat, p: nat)
    requires p > 0
  {
    n == p || n % p != 0
  }

  /** Not divisible by another prime below eighteen. */
  predicate Sieved(n: nat) {
    && n >= 2 && Passes(n, 2) && Passes(n, 3) && Passes(n, 5) && Passes(n, 7) && Passes(n, 11) && Passes(n, 13)
    && Passes(n, 17)
  }

  lemma Fails2(n: nat, q: nat)
    requires n == 2 * q && q >= 2
    ensures !Passes(n, 2)
  {
  }

  lemma Fails3(n: nat, q: nat)
    requires n == 3 * q && q >= 2
    ensures !Passes(n, 3)
  {
  }

  lemma Fails5(n: nat, q: nat)
    requires n == 5 * q && q >= 2
    ensures !Passes(n, 5)
  {
  }

  lemma Fails7(n: nat, q: nat)
    requires n == 7 * q && q >= 2
    ensures !Passes(n, 7)
  {
  }

  lemma Fails11(n: nat, q: nat)
    requires n == 11 * q && q >= 2
    ensures !Passes(n, 11)
  {
  }

  lemma Fails13(n: nat, q: nat)
    requires n == 13 * q && q >= 2
    ensures !Passes(n, 13)
  {
  }

  lemma Fails17(n: nat, q: nat)
    requires n == 17 * q && q >= 2
    ensures !Passes(n, 17)
  {
  }

  lemma SmallFactor(n: nat, d: nat, e: nat)
    requires Factors(n, d, e) && d <= 17
    ensures !Sieved(n)
  {
    hide Passes;
    match d
    case 2 => Fails2(n, e);
    case 3 => Fails3(n, e);
    case 4 => Fails2(n, 2 * e);
    case 5 => Fails5(n, e);
    case 6 => Fails2(n, 3 * e);
    case 7 => Fails7(n, e);
    case 8 => Fails2(n, 4 * e);
    case 9 => Fails3(n, 3 * e);
    case 10 => Fails2(n, 5 * e);
    case 11 => Fails11(n, e);
    case 12 => Fails2(n, 6 * e);
    case 13 => Fails13(n, e);
    case 14 => Fails2(n, 7 * e);
    case 15 => Fails3(n, 5 * e);
    case 16 => Fails2(n, 8 * e);
    case 17 => Fails17(n, e);
  }

  lemma OneIsSmall(n: nat, d: nat, e: nat)
    requires Factors(n, d, e) && n < 324
    ensures d <= 17 || e <= 17
  {
    var x, y := d as int - 18, e as int - 18;
    assert d * e == x * y + 18 * x + 18 * y + 324;
    assert x >= 0 && y >= 0 ==> x * y >= 0;
  }

  lemma SievedIsPrime(n: nat)
    requires n < 324
    ensures Sieved(n) <==> IsPrime(n)
  {
    if Sieved(n) {
      forall d: nat, e: nat
        ensures !Factors(n, d, e)
      {
        if Factors(n, d, e) {
          OneIsSmall(n, d, e);
          HasSmallFactor(n, d, e);
        }
      }
    } else if n >= 2 {
      SieveFactors(n);
    }
  }

  lemma HasSmallFactor(n: nat, d: nat, e: nat)
    requires Factors(n, d, e) && (d <= 17 || e <= 17)
    ensures !Sieved(n)
  {
    if d <= 17 {
      SmallFactor(n, d, e);
    } else {
      assert e * d == d * e;
      SmallFactor(n, e, d);
    }
  }

  lemma SieveFactors(n: nat)
    requires n >= 2 && !Sieved(n)
    ensures exists d: nat, e: nat :: Factors(n, d, e)
  {
    var d := if n != 2 && n % 2 == 0 then 2 else if n != 3 && n % 3 == 0 then 3 else if n != 5 && n % 5 == 0 then 5
             else if n != 7 && n % 7 == 0 then 7 else if n != 11 && n % 11 == 0 then 11
             else if n != 13 && n % 13 == 0 then 13 else 17;
    assert Factors(n, d, n / d);
  }

  predicate Listed(n: nat) {
    || n == 2 || n == 3 || n == 5 || n == 7 || n == 11 || n == 13 || n == 17 || n == 19
    || n == 23 || n == 29 || n == 31 || n == 37 || n == 41 || n == 43 || n == 47 || n == 53
    || n == 59 || n == 61 || n == 67 || n == 71 || n == 73 || n == 79 || n == 83 || n == 89
    || n == 97 || n == 101 || n == 103 || n == 107 || n == 109 || n == 113 || n == 127 || n == 131
    || n == 137 || n == 139 || n == 149 || n == 151 || n == 157 || n == 163 || n == 167 || n == 173
    || n == 179 || n == 181 || n == 191 || n == 193 || n == 197 || n == 199 || n == 211 || n == 223
    || n == 227 || n == 229 || n == 233 || n == 239 || n == 241 || n == 251 || n == 257 || n == 263
    || n == 269 || n == 271 || n == 277 || n == 281 || n == 283 || n == 293 || n == 307 || n == 311
  }

  lemma ListedIs(n: nat)
    ensures Listed(n) <==> n in PRIMES
  {
    assert n in PRIMES <==>
      (n in PRIMES0 || n in PRIMES1 || n in PRIMES2 || n in PRIMES3
       || n in PRIMES4 || n in PRIMES5 || n in PRIMES6 || n in PRIMES7);
  }

  lemma InTheMiddle(a: seq<nat>, b: seq<nat>, c: seq<nat>, j: nat)
    requires j < |b|
    ensures (a + b + c)[|a| + j] == b[j]
  {
  }

  lemma Primes0(j: nat)
    requires j < 8
    ensures PRIMES[0 + j] == PRIMES0[j]
  {
    InTheMiddle([], PRIMES0, PRIMES1 + PRIMES2 + PRIMES3 + PRIMES4 + PRIMES5 + PRIMES6 + PRIMES7, j);
  }

  lemma Primes1(j: nat)
    requires j < 8
    ensures PRIMES[8 + j] == PRIMES1[j]
  {
    InTheMiddle(PRIMES0, PRIMES1, PRIMES2 + PRIMES3 + PRIMES4 + PRIMES5 + PRIMES6 + PRIMES7, j);
  }

  lemma Primes2(j: nat)
    requires j < 8
    ensures PRIMES[16 + j] == PRIMES2[j]
  {
    InTheMiddle(PRIMES0 + PRIMES1, PRIMES2, PRIMES3 + PRIMES4 + PRIMES5 + PRIMES6 + PRIMES7, j);
  }

  lemma Primes3(j: nat)
    requires j < 8
    ensures PRIMES[24 + j] == PRIMES3[j]
  {
    InTheMiddle(PRIMES0 + PRIMES1 + PRIMES2, PRIMES3, PRIMES4 + PRIMES5 + PRIMES6 + PRIMES7, j);
  }

  lemma Primes4(j: nat)
    requires j < 8
    ensures PRIMES[32 + j] == PRIMES4[j]
  {
    InTheMiddle(PRIMES0 + PRIMES1 + PRIMES2 + PRIMES3, PRIMES4, PRIMES5 + PRIMES6 + PRIMES7, j);
  }

  lemma Primes5(j: nat)
    requires j < 8
    ensures PRIMES[40 + j] == PRIMES5[j]
  {
    InTheMiddle(PRIMES0 + PRIMES1 + PRIMES2 + PRIMES3 + PRIMES4, PRIMES5, PRIMES6 + PRIMES7, j);
  }

  lemma Primes6(j: nat)
    requires j < 8
    ensures PRIMES[48 + j] == PRIMES6[j]
  {
    InTheMiddle(PRIMES0 + PRIMES1 + PRIMES2 + PRIMES3 + PRIMES4 + PRIMES5, PRIMES6, PRIMES7, j);
  }

  lemma Primes7(j: nat)
    requires j < 8
    ensures PRIMES[56 + j] == PRIMES7[j]
  {
    InTheMiddle(PRIMES0 + PRIMES1 + PRIMES2 + PRIMES3 + PRIMES4 + PRIMES5 + PRIMES6, PRIMES7, [], j);
  }

  lemma Ascending0(j: nat)
    requires j < 8 && 0 + j < 63
    ensures PRIMES[0 + j] < PRIMES[0 + j + 1]
  {
    Primes0(j);
    if j < 7 { Primes0(j + 1); } else { Primes1(0); }
    hide PRIMES;
  }

  lemma Ascending1(j: nat)
    requires j < 8 && 8 + j < 63
    ensures PRIMES[8 + j] < PRIMES[8 + j + 1]
  {
    Primes1(j);
    if j < 7 { Primes1(j + 1); } else { Primes2(0); }
    hide PRIMES;
  }

  lemma Ascending2(j: nat)
    requires j < 8 && 16 + j < 63
    ensures PRIMES[16 + j] < PRIMES[16 + j + 1]
  {
    Primes2(j);
    if j < 7 { Primes2(j + 1); } else { Primes3(0); }
    hide PRIMES;
  }

  lemma Ascending3(j: nat)
    requires j < 8 && 24 + j < 63
    ensures PRIMES[24 + j] < PRIMES[24 + j + 1]
  {
    Primes3(j);
    if j < 7 { Primes3(j + 1); } else { Primes4(0); }
    hide PRIMES;
  }

  lemma Ascending4(j: nat)
    requires j < 8 && 32 + j < 63
    ensures PRIMES[32 + j] < PRIMES[32 + j + 1]
  {
    Primes4(j);
    if j < 7 { Primes4(j + 1); } else { Primes5(0); }
    hide PRIMES;
  }

  lemma Ascending5(j: nat)
    requires j < 8 && 40 + j < 63
    ensures PRIMES[40 + j] < PRIMES[40 + j + 1]
  {
    Primes5(j);
    if j < 7 { Primes5(j + 1); } else { Primes6(0); }
    hide PRIMES;
  }

  lemma Ascending6(j: nat)
    requires j < 8 && 48 + j < 63
    ensures PRIMES[48 + j] < PRIMES[48 + j + 1]
  {
    Primes6(j);
    if j < 7 { Primes6(j + 1); } else { Primes7(0); }
    hide PRIMES;
  }

  lemma Ascending7(j: nat)
    requires j < 8 && 56 + j < 63
    ensures PRIMES[56 + j] < PRIMES[56 + j + 1]
  {
    Primes7(j);
    Primes7(j + 1);
    hide PRIMES;
  }

  lemma Ascending(i: nat)
    requires i < 63
    ensures PRIMES[i] < PRIMES[i + 1]
  {
    hide PRIMES;
    var j := i % 8;
    match i / 8
    case 0 => Ascending0(j);
    case 1 => Ascending1(j);
    case 2 => Ascending2(j);
    case 3 => Ascending3(j);
    case 4 => Ascending4(j);
    case 5 => Ascending5(j);
    case 6 => Ascending6(j);
    case 7 => Ascending7(j);
  }

  lemma Sieved0(n: nat)
    requires 0 <= n < 12
    ensures Sieved(n) <==> Listed(n)
  {
  }

  lemma Sieved12(n: nat)
    requires 12 <= n < 24
    ensures Sieved(n) <==> Listed(n)
  {
  }

  lemma Sieved24(n: nat)
    requires 24 <= n < 36
    ensures Sieved(n) <==> Listed(n)
  {
  }

  lemma Sieved36(n: nat)
    requires 36 <= n < 48
    ensures Sieved(n) <==> Listed(n)
  {
  }

  lemma Sieved48(n: nat)
    requires 48 <= n < 60
    ensures Sieved(n) <==> Listed(n)
  {
  }

  lemma Sieved60(n: nat)
    requires 60 <= n < 72
    ensures Sieved(n) <==> Listed(n)
  {
  }

  lemma Sieved72(n: nat)
    requires 72 <= n < 84
    ensures Sieved(n) <==> Listed(n)
  {
  }

  lemma Sieved84(n: nat)
    requires 84 <= n < 96
    ensures Sieved(n) <==> Listed(n)
  {
  }

  lemma Sieved96(n: nat)
    requires 96 <= n < 108
    ensures Sieved(n) <==> Listed(n)
  {
  }

  lemma Sieved108(n: nat)
    requires 108 <= n < 120
    ensures Sieved(n) <==> Listed(n)
  {
  }

  lemma Sieved120(n: nat)
    requires 120 <= n < 132
    ensures Sieved(n) <==> Listed(n)
  {
  }

  lemma Sieved132(n: nat)
    requires 132 <= n < 144
    ensures Sieved(n) <==> Listed(n)
  {
  }

  lemma Sieved144(n: nat)
    requires 144 <= n < 156
    ensures Sieved(n) <==> Listed(n)
  {
  }

  lemma Sieved156(n: nat)
    requires 156 <= n < 168
    ensures Sieved(n) <==> Listed(n)
  {
  }

  lemma Sieved168(n: nat)
    requires 168 <= n < 180
    ensures Sieved(n) <==> Listed(n)
  {
  }

  lemma Sieved180(n: nat)
    requires 180 <= n < 192
    ensures Sieved(n) <==> Listed(n)
  {
  }

  lemma Sieved192(n: nat)
    requires 192 <= n < 204
    ensures Sieved(n) <==> Listed(n)
  {
  }

  lemma Sieved204(n: nat)
    requires 204 <= n < 216
    ensures Sieved(n) <==> Listed(n)
  {
  }

  lemma Sieved216(n: nat)
    requires 216 <= n < 228
    ensures Sieved(n) <==> Listed(n)
  {
  }

  lemma Sieved228(n: nat)
    requires 228 <= n < 240
    ensures Sieved(n) <==> Listed(n)
  {
  }

  lemma Sieved240(n: nat)
    requires 240 <= n < 252
    ensures Sieved(n) <==> Listed(n)
  {
  }

  lemma Sieved252(n: nat)
    requires 252 <= n < 264
    ensures Sieved(n) <==> Listed(n)
  {
  }

  lemma Sieved264(n: nat)
    requires 264 <= n < 276
    ensures Sieved(n) <==> Listed(n)
  {
  }

  lemma Sieved276(n: nat)
    requires 276 <= n < 288
    ensures Sieved(n) <==> Listed(n)
  {
  }

  lemma Sieved288(n: nat)
    requires 288 <= n < 300
    ensures Sieved(n) <==> Listed(n)
  {
  }

  lemma Sieved300(n: nat)
    requires 300 <= n < 312
    ensures Sieved(n) <==> Listed(n)
  {
  }

  lemma SievedAre(n: nat)
    requires n < 312
    ensures Sieved(n) <==> n in PRIMES
  {
    hide Sieved, Listed;
    ListedIs(n);
    match n / 12
    case 0 => Sieved0(n);
    case 1 => Sieved12(n);
    case 2 => Sieved24(n);
    case 3 => Sieved36(n);
    case 4 => Sieved48(n);
    case 5 => Sieved60(n);
    case 6 => Sieved72(n);
    case 7 => Sieved84(n);
    case 8 => Sieved96(n);
    case 9 => Sieved108(n);
    case 10 => Sieved120(n);
    case 11 => Sieved132(n);
    case 12 => Sieved144(n);
    case 13 => Sieved156(n);
    case 14 => Sieved168(n);
    case 15 => Sieved180(n);
    case 16 => Sieved192(n);
    case 17 => Sieved204(n);
    case 18 => Sieved216(n);
    case 19 => Sieved228(n);
    case 20 => Sieved240(n);
    case 21 => Sieved252(n);
    case 22 => Sieved264(n);
    case 23 => Sieved276(n);
    case 24 => Sieved288(n);
    case 25 => Sieved300(n);
  }

  /** The list holds exactly the primes below 312, in order. */
  lemma FirstPrimes()
    ensures |PRIMES| == 64 && forall i :: 0 <= i < 63 ==> PRIMES[i] < PRIMES[i + 1]
    ensures forall n :: 0 <= n < 312 ==> (IsPrime(n) <==> n in PRIMES)
  {
    forall i | 0 <= i < 63
      ensures PRIMES[i] < PRIMES[i + 1]
    {
      Ascending(i);
    }
    forall n | 0 <= n < 312
      ensures IsPrime(n) <==> n in PRIMES
    {
      SievedIsPrime(n);
      SievedAre(n);
    }
  }

  // ---------------------------------------------------------------- the fractional parts of their roots

  const TWO32: nat := 0x1_0000_0000
  const TWO64: nat := 0x1_0000_0000_0000_0000
  const TWO96: nat := 0x1_0000_0000_0000_0000_0000_0000

  /** The first 32 bits of the fractional part of the cube root of p: n is the cube root with 32 more bits. */
  ghost predicate CubeRootBits(p: nat, bits: nat) {
    exists n: nat :: n % TWO32 == bits && n * n * n <= p * TWO96 < (n + 1) * (n + 1) * (n + 1)
  }

  ghost predicate SquareRootBits(p: nat, bits: nat) {
    exists n: nat :: n % TWO32 == bits && n * n <= p * TWO64 < (n + 1) * (n + 1)
  }

  lemma CubeRoot(p: nat, n: nat, bits: nat)
    requires n % TWO32 == bits && n * n * n <= p * TWO96 < (n + 1) * (n + 1) * (n + 1)
    ensures CubeRootBits(p, bits)
  {
  }

  lemma SquareRoot(p: nat, n: nat, bits: nat)
    requires n % TWO32 == bits && n * n <= p * TWO64 < (n + 1) * (n + 1)
    ensures SquareRootBits(p, bits)
  {
  }

  lemma CubeRoots0()
    ensures CubeRootBits(2, 0x428a2f98) && CubeRootBits(3, 0x71374491)
    ensures CubeRootBits(5, 0xb5c0fbcf) && CubeRootBits(7, 0xe9b5dba5)
    ensures CubeRootBits(11, 0x3956c25b) && CubeRootBits(13, 0x59f111f1)
    ensures CubeRootBits(17, 0x923f82a4) && CubeRootBits(19, 0xab1c5ed5)
  {
    hide CubeRootBits;
    assert CubeRootBits(2, 0x428a2f98) by { CubeRoot(2, 0x1428a2f98, 0x428a2f98); }
    assert CubeRootBits(3, 0x71374491) by { CubeRoot(3, 0x171374491, 0x71374491); }
    assert CubeRootBits(5, 0xb5c0fbcf) by { CubeRoot(5, 0x1b5c0fbcf, 0xb5c0fbcf); }
    assert CubeRootBits(7, 0xe9b5dba5) by { CubeRoot(7, 0x1e9b5dba5, 0xe9b5dba5); }
    assert CubeRootBits(11, 0x3956c25b) by { CubeRoot(11, 0x23956c25b, 0x3956c25b); }
    assert CubeRootBits(13, 0x59f111f1) by { CubeRoot(13, 0x259f111f1, 0x59f111f1); }
    assert CubeRootBits(17, 0x923f82a4) by { CubeRoot(17, 0x2923f82a4, 0x923f82a4); }
    assert CubeRootBits(19, 0xab1c5ed5) by { CubeRoot(19, 0x2ab1c5ed5, 0xab1c5ed5); }
  }

  lemma RoundConstants0(i: nat)
    requires 0 <= i < 8
    ensures CubeRootBits(PRIMES[i], K[i])
  {
    hide CubeRootBits, PRIMES;
    CubeRoots0();
    Primes0(i - 0);
    match i
    case 0 => assert PRIMES0[0] == 2 && K[0] == 0x428a2f98;
    case 1 => assert PRIMES0[1] == 3 && K[1] == 0x71374491;
    case 2 => assert PRIMES0[2] == 5 && K[2] == 0xb5c0fbcf;
    case 3 => assert PRIMES0[3] == 7 && K[3] == 0xe9b5dba5;
    case 4 => assert PRIMES0[4] == 11 && K[4] == 0x3956c25b;
    case 5 => assert PRIMES0[5] == 13 && K[5] == 0x59f111f1;
    case 6 => assert PRIMES0[6] == 17 && K[6] == 0x923f82a4;
    case 7 => assert PRIMES0[7] == 19 && K[7] == 0xab1c5ed5;
  }

  lemma CubeRoots1()
    ensures CubeRootBits(23, 0xd807aa98) && CubeRootBits(29, 0x12835b01)
    ensures CubeRootBits(31, 0x243185be) && CubeRootBits(37, 0x550c7dc3)
    ensures CubeRootBits(41, 0x72be5d74) && CubeRootBits(43, 0x80deb1fe)
    ensures CubeRootBits(47, 0x9bdc06a7) && CubeRootBits(53, 0xc19bf174)
  {
    hide CubeRootBits;
    assert CubeRootBits(23, 0xd807aa98) by { CubeRoot(23, 0x2d807aa98, 0xd807aa98); }
    assert CubeRootBits(29, 0x12835b01) by { CubeRoot(29, 0x312835b01, 0x12835b01); }
    assert CubeRootBits(31, 0x243185be) by { CubeRoot(31, 0x3243185be, 0x243185be); }
    assert CubeRootBits(37, 0x550c7dc3) by { CubeRoot(37, 0x3550c7dc3, 0x550c7dc3); }
    assert CubeRootBits(41, 0x72be5d74) by { CubeRoot(41, 0x372be5d74, 0x72be5d74); }
    assert CubeRootBits(43, 0x80deb1fe) by { CubeRoot(43, 0x380deb1fe, 0x80deb1fe); }
    assert CubeRootBits(47, 0x9bdc06a7) by { CubeRoot(47, 0x39bdc06a7, 0x9bdc06a7); }
    assert CubeRootBits(53, 0xc19bf174) by { CubeRoot(53, 0x3c19bf174, 0xc19bf174); }
  }

  lemma RoundConstants1(i: nat)
    requires 8 <= i < 16
    ensures CubeRootBits(PRIMES[i], K[i])
  {
    hide CubeRootBits, PRIMES;
    CubeRoots1();
    Primes1(i - 8);
    match i
    case 8 => assert PRIMES1[0] == 23 && K[8] == 0xd807aa98;
    case 9 => assert PRIMES1[1] == 29 && K[9] == 0x12835b01;
    case 10 => assert PRIMES1[2] == 31 && K[10] == 0x243185be;
    case 11 => assert PRIMES1[3] == 37 && K[11] == 0x550c7dc3;
    case 12 => assert PRIMES1[4] == 41 && K[12] == 0x72be5d74;
    case 13 => assert PRIMES1[5] == 43 && K[13] == 0x80deb1fe;
    case 14 => assert PRIMES1[6] == 47 && K[14] == 0x9bdc06a7;
    case 15 => assert PRIMES1[7] == 53 && K[15] == 0xc19bf174;
  }

  lemma CubeRoots2()
    ensures CubeRootBits(59, 0xe49b69c1) && CubeRootBits(61, 0xefbe4786)
    ensures CubeRootBits(67, 0x0fc19dc6) && CubeRootBits(71, 0x240ca1cc)
    ensures CubeRootBits(73, 0x2de92c6f) && CubeRootBits(79, 0x4a7484aa)
    ensures CubeRootBits(83, 0x5cb0a9dc) && CubeRootBits(89, 0x76f988da)
  {
    hide CubeRootBits;
    assert CubeRootBits(59, 0xe49b69c1) by { CubeRoot(59, 0x3e49b69c1, 0xe49b69c1); }
    assert CubeRootBits(61, 0xefbe4786) by { CubeRoot(61, 0x3efbe4786, 0xefbe4786); }
    assert CubeRootBits(67, 0x0fc19dc6) by { CubeRoot(67, 0x40fc19dc6, 0x0fc19dc6); }
    assert CubeRootBits(71, 0x240ca1cc) by { CubeRoot(71, 0x4240ca1cc, 0x240ca1cc); }
    assert CubeRootBits(73, 0x2de92c6f) by { CubeRoot(73, 0x42de92c6f, 0x2de92c6f); }
    assert CubeRootBits(79, 0x4a7484aa) by { CubeRoot(79, 0x44a7484aa, 0x4a7484aa); }
    assert CubeRootBits(83, 0x5cb0a9dc) by { CubeRoot(83, 0x45cb0a9dc, 0x5cb0a9dc); }
    assert CubeRootBits(89, 0x76f988da) by { CubeRoot(89, 0x476f988da, 0x76f988da); }
  }

  lemma RoundConstants2(i: nat)
    requires 16 <= i < 24
    ensures CubeRootBits(PRIMES[i], K[i])
  {
    hide CubeRootBits, PRIMES;
    CubeRoots2();
    Primes2(i - 16);
    match i
    case 16 => assert PRIMES2[0] == 59 && K[16] == 0xe49b69c1;
    case 17 => assert PRIMES2[1] == 61 && K[17] == 0xefbe4786;
    case 18 => assert PRIMES2[2] == 67 && K[18] == 0x0fc19dc6;
    case 19 => assert PRIMES2[3] == 71 && K[19] == 0x240ca1cc;
    case 20 => assert PRIMES2[4] == 73 && K[20] == 0x2de92c6f;
    case 21 => assert PRIMES2[5] == 79 && K[21] == 0x4a7484aa;
    case 22 => assert PRIMES2[6] == 83 && K[22] == 0x5cb0a9dc;
    case 23 => assert PRIMES2[7] == 89 && K[23] == 0x76f988da;
  }

  lemma CubeRoots3()
    ensures CubeRootBits(97, 0x983e5152) && CubeRootBits(101, 0xa831c66d)
    ensures CubeRootBits(103, 0xb00327c8) && CubeRootBits(107, 0xbf597fc7)
    ensures CubeRootBits(109, 0xc6e00bf3) && CubeRootBits(113, 0xd5a79147)
    ensures CubeRootBits(127, 0x06ca6351) && CubeRootBits(131, 0x14292967)
  {
    hide CubeRootBits;
    assert CubeRootBits(97, 0x983e5152) by { CubeRoot(97, 0x4983e5152, 0x983e5152); }
    assert CubeRootBits(101, 0xa831c66d) by { CubeRoot(101, 0x4a831c66d, 0xa831c66d); }
    assert CubeRootBits(103, 0xb00327c8) by { CubeRoot(103, 0x4b00327c8, 0xb00327c8); }
    assert CubeRootBits(107, 0xbf597fc7) by { CubeRoot(107, 0x4bf597fc7, 0xbf597fc7); }
    assert CubeRootBits(109, 0xc6e00bf3) by { CubeRoot(109, 0x4c6e00bf3, 0xc6e00bf3); }
    assert CubeRootBits(113, 0xd5a79147) by { CubeRoot(113, 0x4d5a79147, 0xd5a79147); }
    assert CubeRootBits(127, 0x06ca6351) by { CubeRoot(127, 0x506ca6351, 0x06ca6351); }
    assert CubeRootBits(131, 0x14292967) by { CubeRoot(131, 0x514292967, 0x14292967); }
  }

  lemma RoundConstants3(i: nat)
    requires 24 <= i < 32
    ensures CubeRootBits(PRIMES[i], K[i])
  {
    hide CubeRootBits, PRIMES;
    CubeRoots3();
    Primes3(i - 24);
    match i
    case 24 => assert PRIMES3[0] == 97 && K[24] == 0x983e5152;
    case 25 => assert PRIMES3[1] == 101 && K[25] == 0xa831c66d;
    case 26 => assert PRIMES3[2] == 103 && K[26] == 0xb00327c8;
    case 27 => assert PRIMES3[3] == 107 && K[27] == 0xbf597fc7;
    case 28 => assert PRIMES3[4] == 109 && K[28] == 0xc6e00bf3;
    case 29 => assert PRIMES3[5] == 113 && K[29] == 0xd5a79147;
    case 30 => assert PRIMES3[6] == 127 && K[30] == 0x06ca6351;
    case 31 => assert PRIMES3[7] == 131 && K[31] == 0x14292967;
  }

  lemma CubeRoots4()
    ensures CubeRootBits(137, 0x27b70a85) && CubeRootBits(139, 0x2e1b2138)
    ensures CubeRootBits(149, 0x4d2c6dfc) && CubeRootBits(151, 0x53380d13)
    ensures CubeRootBits(157, 0x650a7354) && CubeRootBits(163, 0x766a0abb)
    ensures CubeRootBits(167, 0x81c2c92e) && CubeRootBits(173, 0x92722c85)
  {
    hide CubeRootBits;
    assert CubeRootBits(137, 0x27b70a85) by { CubeRoot(137, 0x527b70a85, 0x27b70a85); }
    assert CubeRootBits(139, 0x2e1b2138) by { CubeRoot(139, 0x52e1b2138, 0x2e1b2138); }
    assert CubeRootBits(149, 0x4d2c6dfc) by { CubeRoot(149, 0x54d2c6dfc, 0x4d2c6dfc); }
    assert CubeRootBits(151, 0x53380d13) by { CubeRoot(151, 0x553380d13, 0x53380d13); }
    assert CubeRootBits(157, 0x650a7354) by { CubeRoot(157, 0x5650a7354, 0x650a7354); }
    assert CubeRootBits(163, 0x766a0abb) by { CubeRoot(163, 0x5766a0abb, 0x766a0abb); }
    assert CubeRootBits(167, 0x81c2c92e) by { CubeRoot(167, 0x581c2c92e, 0x81c2c92e); }
    assert CubeRootBits(173, 0x92722c85) by { CubeRoot(173, 0x592722c85, 0x92722c85); }
  }

  lemma RoundConstants4(i: nat)
    requires 32 <= i < 40
    ensures CubeRootBits(PRIMES[i], K[i])
  {
    hide CubeRootBits, PRIMES;
    CubeRoots4();
    Primes4(i - 32);
    match i
    case 32 => assert PRIMES4[0] == 137 && K[32] == 0x27b70a85;
    case 33 => assert PRIMES4[1] == 139 && K[33] == 0x2e1b2138;
    case 34 => assert PRIMES4[2] == 149 && K[34] == 0x4d2c6dfc;
    case 35 => assert PRIMES4[3] == 151 && K[35] == 0x53380d13;
    case 36 => assert PRIMES4[4] == 157 && K[36] == 0x650a7354;
    case 37 => assert PRIMES4[5] == 163 && K[37] == 0x766a0abb;
    case 38 => assert PRIMES4[6] == 167 && K[38] == 0x81c2c92e;
    case 39 => assert PRIMES4[7] == 173 && K[39] == 0x92722c85;
  }

  lemma CubeRoots5()
    ensures CubeRootBits(179, 0xa2bfe8a1) && CubeRootBits(181, 0xa81a664b)
    ensures CubeRootBits(191, 0xc24b8b70) && CubeRootBits(193, 0xc76c51a3)
    ensures CubeRootBits(197, 0xd192e819) && CubeRootBits(199, 0xd6990624)
    ensures CubeRootBits(211, 0xf40e3585) && CubeRootBits(223, 0x106aa070)
  {
    hide CubeRootBits;
    assert CubeRootBits(179, 0xa2bfe8a1) by { CubeRoot(179, 0x5a2bfe8a1, 0xa2bfe8a1); }
    assert CubeRootBits(181, 0xa81a664b) by { CubeRoot(181, 0x5a81a664b, 0xa81a664b); }
    assert CubeRootBits(191, 0xc24b8b70) by { CubeRoot(191, 0x5c24b8b70, 0xc24b8b70); }
    assert CubeRootBits(193, 0xc76c51a3) by { CubeRoot(193, 0x5c76c51a3, 0xc76c51a3); }
    assert CubeRootBits(197, 0xd192e819) by { CubeRoot(197, 0x5d192e819, 0xd192e819); }
    assert CubeRootBits(199, 0xd6990624) by { CubeRoot(199, 0x5d6990624, 0xd6990624); }
    assert CubeRootBits(211, 0xf40e3585) by { CubeRoot(211, 0x5f40e3585, 0xf40e3585); }
    assert CubeRootBits(223, 0x106aa070) by { CubeRoot(223, 0x6106aa070, 0x106aa070); }
  }

  lemma RoundConstants5(i: nat)
    requires 40 <= i < 48
    ensures CubeRootBits(PRIMES[i], K[i])
  {
    hide CubeRootBits, PRIMES;
    CubeRoots5();
    Primes5(i - 40);
    match i
    case 40 => assert PRIMES5[0] == 179 && K[40] == 0xa2bfe8a1;
    case 41 => assert PRIMES5[1] == 181 && K[41] == 0xa81a664b;
    case 42 => assert PRIMES5[2] == 191 && K[42] == 0xc24b8b70;
    case 43 => assert PRIMES5[3] == 193 && K[43] == 0xc76c51a3;
    case 44 => assert PRIMES5[4] == 197 && K[44] == 0xd192e819;
    case 45 => assert PRIMES5[5] == 199 && K[45] == 0xd6990624;
    case 46 => assert PRIMES5[6] == 211 && K[46] == 0xf40e3585;
    case 47 => assert PRIMES5[7] == 223 && K[47] == 0x106aa070;
  }

  lemma CubeRoots6()
    ensures CubeRootBits(227, 0x19a4c116) && CubeRootBits(229, 0x1e376c08)
    ensures CubeRootBits(233, 0x2748774c) && CubeRootBits(239, 0x34b0bcb5)
    ensures CubeRootBits(241, 0x391c0cb3) && CubeRootBits(251, 0x4ed8aa4a)
    ensures CubeRootBits(257, 0x5b9cca4f) && CubeRootBits(263, 0x682e6ff3)
  {
    hide CubeRootBits;
    assert CubeRootBits(227, 0x19a4c116) by { CubeRoot(227, 0x619a4c116, 0x19a4c116); }
    assert CubeRootBits(229, 0x1e376c08) by { CubeRoot(229, 0x61e376c08, 0x1e376c08); }
    assert CubeRootBits(233, 0x2748774c) by { CubeRoot(233, 0x62748774c, 0x2748774c); }
    assert CubeRootBits(239, 0x34b0bcb5) by { CubeRoot(239, 0x634b0bcb5, 0x34b0bcb5); }
    assert CubeRootBits(241, 0x391c0cb3) by { CubeRoot(241, 0x6391c0cb3, 0x391c0cb3); }
    assert CubeRootBits(251, 0x4ed8aa4a) by { CubeRoot(251, 0x64ed8aa4a, 0x4ed8aa4a); }
    assert CubeRootBits(257, 0x5b9cca4f) by { CubeRoot(257, 0x65b9cca4f, 0x5b9cca4f); }
    assert CubeRootBits(263, 0x682e6ff3) by { CubeRoot(263, 0x6682e6ff3, 0x682e6ff3); }
  }

  lemma RoundConstants6(i: nat)
    requires 48 <= i < 56
    ensures CubeRootBits(PRIMES[i], K[i])
  {
    hide CubeRootBits, PRIMES;
    CubeRoots6();
    Primes6(i - 48);
    match i
    case 48 => assert PRIMES6[0] == 227 && K[48] == 0x19a4c116;
    case 49 => assert PRIMES6[1] == 229 && K[49] == 0x1e376c08;
    case 50 => assert PRIMES6[2] == 233 && K[50] == 0x2748774c;
    case 51 => assert PRIMES6[3] == 239 && K[51] == 0x34b0bcb5;
    case 52 => assert PRIMES6[4] == 241 && K[52] == 0x391c0cb3;
    case 53 => assert PRIMES6[5] == 251 && K[53] == 0x4ed8aa4a;
    case 54 => assert PRIMES6[6] == 257 && K[54] == 0x5b9cca4f;
    case 55 => assert PRIMES6[7] == 263 && K[55] == 0x682e6ff3;
  }

  lemma CubeRoots7()
    ensures CubeRootBits(269, 0x748f82ee) && CubeRootBits(271, 0x78a5636f)
    ensures CubeRootBits(277, 0x84c87814) && CubeRootBits(281, 0x8cc70208)
    ensures CubeRootBits(283, 0x90befffa) && CubeRootBits(293, 0xa4506ceb)
    ensures CubeRootBits(307, 0xbef9a3f7) && CubeRootBits(311, 0xc67178f2)
  {
    hide CubeRootBits;
    assert CubeRootBits(269, 0x748f82ee) by { CubeRoot(269, 0x6748f82ee, 0x748f82ee); }
    assert CubeRootBits(271, 0x78a5636f) by { CubeRoot(271, 0x678a5636f, 0x78a5636f); }
    assert CubeRootBits(277, 0x84c87814) by { CubeRoot(277, 0x684c87814, 0x84c87814); }
    assert CubeRootBits(281, 0x8cc70208) by { CubeRoot(281, 0x68cc70208, 0x8cc70208); }
    assert CubeRootBits(283, 0x90befffa) by { CubeRoot(283, 0x690befffa, 0x90befffa); }
    assert CubeRootBits(293, 0xa4506ceb) by { CubeRoot(293, 0x6a4506ceb, 0xa4506ceb); }
    assert CubeRootBits(307, 0xbef9a3f7) by { CubeRoot(307, 0x6bef9a3f7, 0xbef9a3f7); }
    assert CubeRootBits(311, 0xc67178f2) by { CubeRoot(311, 0x6c67178f2, 0xc67178f2); }
  }

  lemma RoundConstants7(i: nat)
    requires 56 <= i < 64
    ensures CubeRootBits(PRIMES[i], K[i])
  {
    hide CubeRootBits, PRIMES;
    CubeRoots7();
    Primes7(i - 56);
    match i
    case 56 => assert PRIMES7[0] == 269 && K[56] == 0x748f82ee;
    case 57 => assert PRIMES7[1] == 271 && K[57] == 0x78a5636f;
    case 58 => assert PRIMES7[2] == 277 && K[58] == 0x84c87814;
    case 59 => assert PRIMES7[3] == 281 && K[59] == 0x8cc70208;
    case 60 => assert PRIMES7[4] == 283 && K[60] == 0x90befffa;
    case 61 => assert PRIMES7[5] == 293 && K[61] == 0xa4506ceb;
    case 62 => assert PRIMES7[6] == 307 && K[62] == 0xbef9a3f7;
    case 63 => assert PRIMES7[7] == 311 && K[63] == 0xc67178f2;
  }

  /** The initial hash value: the square roots of the first eight primes. */
  lemma InitialHash()
    ensures forall i :: 0 <= i < 8 ==> SquareRootBits(PRIMES[i], H0[i])
  {
    hide SquareRootBits;
    assert SquareRootBits(PRIMES[0], H0[0]) by { SquareRoot(2, 0x16a09e667, 0x6a09e667); }
    assert SquareRootBits(PRIMES[1], H0[1]) by { SquareRoot(3, 0x1bb67ae85, 0xbb67ae85); }
    assert SquareRootBits(PRIMES[2], H0[2]) by { SquareRoot(5, 0x23c6ef372, 0x3c6ef372); }
    assert SquareRootBits(PRIMES[3], H0[3]) by { SquareRoot(7, 0x2a54ff53a, 0xa54ff53a); }
    assert SquareRootBits(PRIMES[4], H0[4]) by { SquareRoot(11, 0x3510e527f, 0x510e527f); }
    assert SquareRootBits(PRIMES[5], H0[5]) by { SquareRoot(13, 0x39b05688c, 0x9b05688c); }
    assert SquareRootBits(PRIMES[6], H0[6]) by { SquareRoot(17, 0x41f83d9ab, 0x1f83d9ab); }
    assert SquareRootBits(PRIMES[7], H0[7]) by { SquareRoot(19, 0x45be0cd19, 0x5be0cd19); }
  }

  /** The round constants: the cube roots of the first sixty-four primes. */
  lemma RoundConstants()
    ensures |K| == 64 && forall i :: 0 <= i < 64 ==> CubeRootBits(PRIMES[i], K[i])
  {
    hide CubeRootBits;
    forall i | 0 <= i < 64
      ensures CubeRootBits(PRIMES[i], K[i])
    {
      if i < 8 { RoundConstants0(i); }
      else if i < 16 { RoundConstants1(i); }
      else if i < 24 { RoundConstants2(i); }
      else if i < 32 { RoundConstants3(i); }
      else if i < 40 { RoundConstants4(i); }
      else if i < 48 { RoundConstants5(i); }
      else if i < 56 { RoundConstants6(i); }
      else if i < 64 { RoundConstants7(i); }
    }
  }
}
