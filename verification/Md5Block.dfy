/** The MD5 transformation of one block: the unrolled steps of ngx_md5.c against the table of RFC 1321. */
module Md5Block {

  datatype State = State(a: bv32, b: bv32, c: bv32, d: bv32)

  // ----- Section 3.4 of RFC 1321 -----------------------------------------------------------------------------

  function F(x: bv32, y: bv32, z: bv32): bv32 {
    (x & y) | (!x & z)
  }

  function G(x: bv32, y: bv32, z: bv32): bv32 {
    (x & z) | (y & !z)
  }

  function H(x: bv32, y: bv32, z: bv32): bv32 {
    x ^ y ^ z
  }

  function I(x: bv32, y: bv32, z: bv32): bv32 {
    y ^ (x | !z)
  }

  /** The function of step `i`. */
  function Mix(i: nat, x: bv32, y: bv32, z: bv32): bv32 {
    if i < 16 then F(x, y, z) else if i < 32 then G(x, y, z) else if i < 48 then H(x, y, z) else I(x, y, z)
  }

  /** The message word of step `i`. */
  function WordOf(i: nat): (k: nat)
    ensures k < 16
  {
    if i < 16 then i % 16 else if i < 32 then (5 * i + 1) % 16 else if i < 48 then (3 * i + 5) % 16 else 7 * i % 16
  }

  /** How far step `i` rotates. */
  function RotationOf(i: nat): (s: nat)
    ensures 0 < s < 32
  {
    var j := i % 4;
    if i < 16 then (if j == 0 then 7 else if j == 1 then 12 else if j == 2 then 17 else 22)
    else if i < 32 then (if j == 0 then 5 else if j == 1 then 9 else if j == 2 then 14 else 20)
    else if i < 48 then (if j == 0 then 4 else if j == 1 then 11 else if j == 2 then 16 else 23)
    else (if j == 0 then 6 else if j == 1 then 10 else if j == 2 then 15 else 21)
  }

  /** The table T, eight steps a row. */
  const T1: seq<bv32> := [
    0xd76aa478, 0xe8c7b756, 0x242070db, 0xc1bdceee,
    0xf57c0faf, 0x4787c62a, 0xa8304613, 0xfd469501]
  const T2: seq<bv32> := [
    0x698098d8, 0x8b44f7af, 0xffff5bb1, 0x895cd7be,
    0x6b901122, 0xfd987193, 0xa679438e, 0x49b40821]
  const T3: seq<bv32> := [
    0xf61e2562, 0xc040b340, 0x265e5a51, 0xe9b6c7aa,
    0xd62f105d, 0x02441453, 0xd8a1e681, 0xe7d3fbc8]
  const T4: seq<bv32> := [
    0x21e1cde6, 0xc33707d6, 0xf4d50d87, 0x455a14ed,
    0xa9e3e905, 0xfcefa3f8, 0x676f02d9, 0x8d2a4c8a]
  const T5: seq<bv32> := [
    0xfffa3942, 0x8771f681, 0x6d9d6122, 0xfde5380c,
    0xa4beea44, 0x4bdecfa9, 0xf6bb4b60, 0xbebfbc70]
  const T6: seq<bv32> := [
    0x289b7ec6, 0xeaa127fa, 0xd4ef3085, 0x04881d05,
    0xd9d4d039, 0xe6db99e5, 0x1fa27cf8, 0xc4ac5665]
  const T7: seq<bv32> := [
    0xf4292244, 0x432aff97, 0xab9423a7, 0xfc93a039,
    0x655b59c3, 0x8f0ccc92, 0xffeff47d, 0x85845dd1]
  const T8: seq<bv32> := [
    0x6fa87e4f, 0xfe2ce6e0, 0xa3014314, 0x4e0811a1,
    0xf7537e82, 0xbd3af235, 0x2ad7d2bb, 0xeb86d391]

  function Sine(i: nat): bv32
    requires i < 64
  {
    if i < 32 then if i < 16 then (if i < 8 then T1[i] else T2[i - 8]) else if i < 24 then T3[i - 16] else T4[i - 24]
    else if i < 48 then (if i < 40 then T5[i - 32] else T6[i - 40]) else if i < 56 then T7[i - 48] else T8[i - 56]
  }

  function Rotate(x: bv32, s: nat): bv32
    requires s < 32
  {
    (x << s) | (x >> (32 - s))
  }

  /** The new value of a step: `b + ((a + f + w + t) <<< s)`. */
  function Turn(f: bv32, a: bv32, b: bv32, w: bv32, t: bv32, s: nat): bv32
    requires 0 < s < 32
  {
    b + Rotate(a + f + w + t, s)
  }

  /** Step `i`; the registers change places. */
  function OneStep(x: seq<bv32>, i: nat, q: State): State
    requires |x| == 16 && i < 64
  {
    State(q.d, Turn(Mix(i, q.b, q.c, q.d), q.a, q.b, x[WordOf(i)], Sine(i), RotationOf(i)), q.b, q.c)
  }

  function Steps(x: seq<bv32>, n: nat, q: State): State
    requires |x| == 16 && n <= 64
  {
    if n == 0 then q else OneStep(x, n - 1, Steps(x, n - 1, q))
  }

  function Add(p: State, q: State): State {
    State(p.a + q.a, p.b + q.b, p.c + q.c, p.d + q.d)
  }

  /** One block of sixteen words. */
  function Transform(q: State, x: seq<bv32>): State
    requires |x| == 16
  {
    Add(q, Steps(x, 64, q))
  }

  // ----- The macros --------------------------------------------------------------------------------------------

  function FastF(x: bv32, y: bv32, z: bv32): bv32 {
    z ^ (x & (y ^ z))
  }

  function FastG(x: bv32, y: bv32, z: bv32): bv32 {
    y ^ (z & (x ^ y))
  }

  lemma SelectF(x: bv32, y: bv32, z: bv32)
    ensures z ^ (x & (y ^ z)) == (x & y) | (!x & z)
  {
  }

  lemma SelectG(x: bv32, y: bv32, z: bv32)
    ensures y ^ (z & (x ^ y)) == (x & z) | (y & !z)
  {
  }

  /** The optimized forms are the definitions. */
  lemma FastIsF(x: bv32, y: bv32, z: bv32)
    ensures FastF(x, y, z) == F(x, y, z)
  {
    SelectF(x, y, z);
  }

  lemma FastIsG(x: bv32, y: bv32, z: bv32)
    ensures FastG(x, y, z) == G(x, y, z)
  {
    SelectG(x, y, z);
  }

  /** The function that the code uses in step `i`. */
  function Fast(i: nat, x: bv32, y: bv32, z: bv32): bv32 {
    if i < 16 then FastF(x, y, z) else if i < 32 then FastG(x, y, z) else if i < 48 then H(x, y, z) else I(x, y, z)
  }

  lemma FastIsMix(i: nat, x: bv32, y: bv32, z: bv32)
    ensures Fast(i, x, y, z) == Mix(i, x, y, z)
  {
    hide FastF, FastG, F, G, H, I;
    FastIsF(x, y, z);
    FastIsG(x, y, z);
  }

  /** STEP, given the value of the round's function. */
  function Step(f: bv32, a: bv32, b: bv32, x: bv32, t: bv32, s: nat): bv32
    requires 0 < s < 32
  {
    Rotate(a + (f + x + t), s) + b
  }

  lemma StepIsTurn(f: bv32, a: bv32, b: bv32, w: bv32, t: bv32, s: nat)
    requires 0 < s < 32
    ensures Step(f, a, b, w, t, s) == Turn(f, a, b, w, t, s)
  {
    hide Rotate;
    assert a + (f + w + t) == a + f + w + t;
    SumComm(b, Rotate(a + f + w + t, s));
  }

  lemma SumComm(a: bv32, b: bv32)
    ensures a + b == b + a
  {
  }

  /** A step of the code is a step of the definition, whatever registers hold the state. */
  lemma StepIs(x: seq<bv32>, i: nat, q: State, r: State, f: bv32, w: bv32, t: bv32, s: nat)
    requires |x| == 16 && i < 64 && q == Steps(x, i, r)
    requires f == Mix(i, q.b, q.c, q.d) && w == x[WordOf(i)] && t == Sine(i) && s == RotationOf(i)
    ensures Steps(x, i + 1, r) == State(q.d, Step(f, q.a, q.b, w, t, s), q.b, q.c)
  {
    hide Mix, WordOf, Sine, RotationOf, Step, Turn;
    StepIsTurn(f, q.a, q.b, w, t, s);
  }

  /** The value that step `i` of the code computes. */
  function CodeStep(x: seq<bv32>, i: nat, a: bv32, b: bv32, c: bv32, d: bv32): bv32
    requires |x| == 16 && i < 64
  {
    Step(Fast(i, b, c, d), a, b, x[WordOf(i)], Sine(i), RotationOf(i))
  }

  lemma CodeStepAt(x: seq<bv32>, i: nat, a: bv32, b: bv32, c: bv32, d: bv32, k: nat, t: bv32, s: nat)
    requires |x| == 16 && Operands(i, k, t, s)
    ensures k < 16 && 0 < s < 32
    ensures CodeStep(x, i, a, b, c, d) == Step(Fast(i, b, c, d), a, b, x[k], t, s)
  {
    hide WordOf, Sine, RotationOf, Step, Fast;
  }

  lemma CodeStepIs(x: seq<bv32>, i: nat, q: State, r: State)
    requires |x| == 16 && i < 64 && q == Steps(x, i, r)
    ensures Steps(x, i + 1, r) == State(q.d, CodeStep(x, i, q.a, q.b, q.c, q.d), q.b, q.c)
  {
    hide Mix, Fast, WordOf, Sine, RotationOf, Step, Steps;
    FastIsMix(i, q.b, q.c, q.d);
    StepIs(x, i, q, r, Fast(i, q.b, q.c, q.d), x[WordOf(i)], Sine(i), RotationOf(i));
  }

  /** Four steps write the four registers in turn. */
  lemma Quarter(x: seq<bv32>, i: nat, r: State, q: State, p: State)
    requires |x| == 16 && i <= 60 && q == Steps(x, i, r)
    requires p.a == CodeStep(x, i, q.a, q.b, q.c, q.d)
    requires p.d == CodeStep(x, i + 1, q.d, p.a, q.b, q.c)
    requires p.c == CodeStep(x, i + 2, q.c, p.d, p.a, q.b)
    requires p.b == CodeStep(x, i + 3, q.b, p.c, p.d, p.a)
    ensures p == Steps(x, i + 4, r)
  {
    hide CodeStep, Steps;
    CodeStepIs(x, i, q, r);
    CodeStepIs(x, i + 1, State(q.d, p.a, q.b, q.c), r);
    CodeStepIs(x, i + 2, State(q.c, p.d, p.a, q.b), r);
    CodeStepIs(x, i + 3, State(q.b, p.c, p.d, p.a), r);
  }

  /** The operands of step `i`. */
  ghost predicate Operands(i: nat, k: nat, t: bv32, s: nat) {
    i < 64 && k == WordOf(i) && t == Sine(i) && s == RotationOf(i)
  }

  lemma Operands0()
    ensures Operands(0, 0, 0xd76aa478, 7) && Operands(1, 1, 0xe8c7b756, 12)
    ensures Operands(2, 2, 0x242070db, 17) && Operands(3, 3, 0xc1bdceee, 22)
    ensures Operands(4, 4, 0xf57c0faf, 7) && Operands(5, 5, 0x4787c62a, 12)
    ensures Operands(6, 6, 0xa8304613, 17) && Operands(7, 7, 0xfd469501, 22)
  {
  }

  lemma Operands8()
    ensures Operands(8, 8, 0x698098d8, 7) && Operands(9, 9, 0x8b44f7af, 12)
    ensures Operands(10, 10, 0xffff5bb1, 17) && Operands(11, 11, 0x895cd7be, 22)
    ensures Operands(12, 12, 0x6b901122, 7) && Operands(13, 13, 0xfd987193, 12)
    ensures Operands(14, 14, 0xa679438e, 17) && Operands(15, 15, 0x49b40821, 22)
  {
  }

  lemma Operands16()
    ensures Operands(16, 1, 0xf61e2562, 5) && Operands(17, 6, 0xc040b340, 9)
    ensures Operands(18, 11, 0x265e5a51, 14) && Operands(19, 0, 0xe9b6c7aa, 20)
    ensures Operands(20, 5, 0xd62f105d, 5) && Operands(21, 10, 0x02441453, 9)
    ensures Operands(22, 15, 0xd8a1e681, 14) && Operands(23, 4, 0xe7d3fbc8, 20)
  {
  }

  lemma Operands24()
    ensures Operands(24, 9, 0x21e1cde6, 5) && Operands(25, 14, 0xc33707d6, 9)
    ensures Operands(26, 3, 0xf4d50d87, 14) && Operands(27, 8, 0x455a14ed, 20)
    ensures Operands(28, 13, 0xa9e3e905, 5) && Operands(29, 2, 0xfcefa3f8, 9)
    ensures Operands(30, 7, 0x676f02d9, 14) && Operands(31, 12, 0x8d2a4c8a, 20)
  {
  }

  lemma Operands32()
    ensures Operands(32, 5, 0xfffa3942, 4) && Operands(33, 8, 0x8771f681, 11)
    ensures Operands(34, 11, 0x6d9d6122, 16) && Operands(35, 14, 0xfde5380c, 23)
    ensures Operands(36, 1, 0xa4beea44, 4) && Operands(37, 4, 0x4bdecfa9, 11)
    ensures Operands(38, 7, 0xf6bb4b60, 16) && Operands(39, 10, 0xbebfbc70, 23)
  {
  }

  lemma Operands40()
    ensures Operands(40, 13, 0x289b7ec6, 4) && Operands(41, 0, 0xeaa127fa, 11)
    ensures Operands(42, 3, 0xd4ef3085, 16) && Operands(43, 6, 0x04881d05, 23)
    ensures Operands(44, 9, 0xd9d4d039, 4) && Operands(45, 12, 0xe6db99e5, 11)
    ensures Operands(46, 15, 0x1fa27cf8, 16) && Operands(47, 2, 0xc4ac5665, 23)
  {
  }

  lemma Operands48()
    ensures Operands(48, 0, 0xf4292244, 6) && Operands(49, 7, 0x432aff97, 10)
    ensures Operands(50, 14, 0xab9423a7, 15) && Operands(51, 5, 0xfc93a039, 21)
    ensures Operands(52, 12, 0x655b59c3, 6) && Operands(53, 3, 0x8f0ccc92, 10)
    ensures Operands(54, 10, 0xffeff47d, 15) && Operands(55, 1, 0x85845dd1, 21)
  {
  }

  lemma Operands56()
    ensures Operands(56, 8, 0x6fa87e4f, 6) && Operands(57, 15, 0xfe2ce6e0, 10)
    ensures Operands(58, 6, 0xa3014314, 15) && Operands(59, 13, 0x4e0811a1, 21)
    ensures Operands(60, 4, 0xf7537e82, 6) && Operands(61, 11, 0xbd3af235, 10)
    ensures Operands(62, 2, 0x2ad7d2bb, 15) && Operands(63, 9, 0xeb86d391, 21)
  {
  }

  method Round1(x: seq<bv32>, q: State, ghost r: State) returns (p: State)
    requires |x| == 16 && q == Steps(x, 0, r)
    ensures p == Steps(x, 16, r)
  {
    hide Steps, Step, FastF, FastG, H, I, Operands, CodeStep, WordOf, Sine, RotationOf;
    var a, b, c, d := q.a, q.b, q.c, q.d;
    p := q;
    Operands0();
    Operands8();
    CodeStepAt(x, 0, a, b, c, d, 0, 0xd76aa478, 7);
    a := Step(FastF(b, c, d), a, b, x[0], 0xd76aa478, 7);
    CodeStepAt(x, 1, d, a, b, c, 1, 0xe8c7b756, 12);
    d := Step(FastF(a, b, c), d, a, x[1], 0xe8c7b756, 12);
    CodeStepAt(x, 2, c, d, a, b, 2, 0x242070db, 17);
    c := Step(FastF(d, a, b), c, d, x[2], 0x242070db, 17);
    CodeStepAt(x, 3, b, c, d, a, 3, 0xc1bdceee, 22);
    b := Step(FastF(c, d, a), b, c, x[3], 0xc1bdceee, 22);
    Quarter(x, 0, r, p, State(a, b, c, d));
    p := State(a, b, c, d);
    CodeStepAt(x, 4, a, b, c, d, 4, 0xf57c0faf, 7);
    a := Step(FastF(b, c, d), a, b, x[4], 0xf57c0faf, 7);
    CodeStepAt(x, 5, d, a, b, c, 5, 0x4787c62a, 12);
    d := Step(FastF(a, b, c), d, a, x[5], 0x4787c62a, 12);
    CodeStepAt(x, 6, c, d, a, b, 6, 0xa8304613, 17);
    c := Step(FastF(d, a, b), c, d, x[6], 0xa8304613, 17);
    CodeStepAt(x, 7, b, c, d, a, 7, 0xfd469501, 22);
    b := Step(FastF(c, d, a), b, c, x[7], 0xfd469501, 22);
    Quarter(x, 4, r, p, State(a, b, c, d));
    p := State(a, b, c, d);
    CodeStepAt(x, 8, a, b, c, d, 8, 0x698098d8, 7);
    a := Step(FastF(b, c, d), a, b, x[8], 0x698098d8, 7);
    CodeStepAt(x, 9, d, a, b, c, 9, 0x8b44f7af, 12);
    d := Step(FastF(a, b, c), d, a, x[9], 0x8b44f7af, 12);
    CodeStepAt(x, 10, c, d, a, b, 10, 0xffff5bb1, 17);
    c := Step(FastF(d, a, b), c, d, x[10], 0xffff5bb1, 17);
    CodeStepAt(x, 11, b, c, d, a, 11, 0x895cd7be, 22);
    b := Step(FastF(c, d, a), b, c, x[11], 0x895cd7be, 22);
    Quarter(x, 8, r, p, State(a, b, c, d));
    p := State(a, b, c, d);
    CodeStepAt(x, 12, a, b, c, d, 12, 0x6b901122, 7);
    a := Step(FastF(b, c, d), a, b, x[12], 0x6b901122, 7);
    CodeStepAt(x, 13, d, a, b, c, 13, 0xfd987193, 12);
    d := Step(FastF(a, b, c), d, a, x[13], 0xfd987193, 12);
    CodeStepAt(x, 14, c, d, a, b, 14, 0xa679438e, 17);
    c := Step(FastF(d, a, b), c, d, x[14], 0xa679438e, 17);
    CodeStepAt(x, 15, b, c, d, a, 15, 0x49b40821, 22);
    b := Step(FastF(c, d, a), b, c, x[15], 0x49b40821, 22);
    Quarter(x, 12, r, p, State(a, b, c, d));
    p := State(a, b, c, d);
  }

  method Round2(x: seq<bv32>, q: State, ghost r: State) returns (p: State)
    requires |x| == 16 && q == Steps(x, 16, r)
    ensures p == Steps(x, 32, r)
  {
    hide Steps, Step, FastF, FastG, H, I, Operands, CodeStep, WordOf, Sine, RotationOf;
    var a, b, c, d := q.a, q.b, q.c, q.d;
    p := q;
    Operands16();
    Operands24();
    CodeStepAt(x, 16, a, b, c, d, 1, 0xf61e2562, 5);
    a := Step(FastG(b, c, d), a, b, x[1], 0xf61e2562, 5);
    CodeStepAt(x, 17, d, a, b, c, 6, 0xc040b340, 9);
    d := Step(FastG(a, b, c), d, a, x[6], 0xc040b340, 9);
    CodeStepAt(x, 18, c, d, a, b, 11, 0x265e5a51, 14);
    c := Step(FastG(d, a, b), c, d, x[11], 0x265e5a51, 14);
    CodeStepAt(x, 19, b, c, d, a, 0, 0xe9b6c7aa, 20);
    b := Step(FastG(c, d, a), b, c, x[0], 0xe9b6c7aa, 20);
    Quarter(x, 16, r, p, State(a, b, c, d));
    p := State(a, b, c, d);
    CodeStepAt(x, 20, a, b, c, d, 5, 0xd62f105d, 5);
    a := Step(FastG(b, c, d), a, b, x[5], 0xd62f105d, 5);
    CodeStepAt(x, 21, d, a, b, c, 10, 0x02441453, 9);
    d := Step(FastG(a, b, c), d, a, x[10], 0x02441453, 9);
    CodeStepAt(x, 22, c, d, a, b, 15, 0xd8a1e681, 14);
    c := Step(FastG(d, a, b), c, d, x[15], 0xd8a1e681, 14);
    CodeStepAt(x, 23, b, c, d, a, 4, 0xe7d3fbc8, 20);
    b := Step(FastG(c, d, a), b, c, x[4], 0xe7d3fbc8, 20);
    Quarter(x, 20, r, p, State(a, b, c, d));
    p := State(a, b, c, d);
    CodeStepAt(x, 24, a, b, c, d, 9, 0x21e1cde6, 5);
    a := Step(FastG(b, c, d), a, b, x[9], 0x21e1cde6, 5);
    CodeStepAt(x, 25, d, a, b, c, 14, 0xc33707d6, 9);
    d := Step(FastG(a, b, c), d, a, x[14], 0xc33707d6, 9);
    CodeStepAt(x, 26, c, d, a, b, 3, 0xf4d50d87, 14);
    c := Step(FastG(d, a, b), c, d, x[3], 0xf4d50d87, 14);
    CodeStepAt(x, 27, b, c, d, a, 8, 0x455a14ed, 20);
    b := Step(FastG(c, d, a), b, c, x[8], 0x455a14ed, 20);
    Quarter(x, 24, r, p, State(a, b, c, d));
    p := State(a, b, c, d);
    CodeStepAt(x, 28, a, b, c, d, 13, 0xa9e3e905, 5);
    a := Step(FastG(b, c, d), a, b, x[13], 0xa9e3e905, 5);
    CodeStepAt(x, 29, d, a, b, c, 2, 0xfcefa3f8, 9);
    d := Step(FastG(a, b, c), d, a, x[2], 0xfcefa3f8, 9);
    CodeStepAt(x, 30, c, d, a, b, 7, 0x676f02d9, 14);
    c := Step(FastG(d, a, b), c, d, x[7], 0x676f02d9, 14);
    CodeStepAt(x, 31, b, c, d, a, 12, 0x8d2a4c8a, 20);
    b := Step(FastG(c, d, a), b, c, x[12], 0x8d2a4c8a, 20);
    Quarter(x, 28, r, p, State(a, b, c, d));
    p := State(a, b, c, d);
  }

  method Round3(x: seq<bv32>, q: State, ghost r: State) returns (p: State)
    requires |x| == 16 && q == Steps(x, 32, r)
    ensures p == Steps(x, 48, r)
  {
    hide Steps, Step, FastF, FastG, H, I, Operands, CodeStep, WordOf, Sine, RotationOf;
    var a, b, c, d := q.a, q.b, q.c, q.d;
    p := q;
    Operands32();
    Operands40();
    CodeStepAt(x, 32, a, b, c, d, 5, 0xfffa3942, 4);
    a := Step(H(b, c, d), a, b, x[5], 0xfffa3942, 4);
    CodeStepAt(x, 33, d, a, b, c, 8, 0x8771f681, 11);
    d := Step(H(a, b, c), d, a, x[8], 0x8771f681, 11);
    CodeStepAt(x, 34, c, d, a, b, 11, 0x6d9d6122, 16);
    c := Step(H(d, a, b), c, d, x[11], 0x6d9d6122, 16);
    CodeStepAt(x, 35, b, c, d, a, 14, 0xfde5380c, 23);
    b := Step(H(c, d, a), b, c, x[14], 0xfde5380c, 23);
    Quarter(x, 32, r, p, State(a, b, c, d));
    p := State(a, b, c, d);
    CodeStepAt(x, 36, a, b, c, d, 1, 0xa4beea44, 4);
    a := Step(H(b, c, d), a, b, x[1], 0xa4beea44, 4);
    CodeStepAt(x, 37, d, a, b, c, 4, 0x4bdecfa9, 11);
    d := Step(H(a, b, c), d, a, x[4], 0x4bdecfa9, 11);
    CodeStepAt(x, 38, c, d, a, b, 7, 0xf6bb4b60, 16);
    c := Step(H(d, a, b), c, d, x[7], 0xf6bb4b60, 16);
    CodeStepAt(x, 39, b, c, d, a, 10, 0xbebfbc70, 23);
    b := Step(H(c, d, a), b, c, x[10], 0xbebfbc70, 23);
    Quarter(x, 36, r, p, State(a, b, c, d));
    p := State(a, b, c, d);
    CodeStepAt(x, 40, a, b, c, d, 13, 0x289b7ec6, 4);
    a := Step(H(b, c, d), a, b, x[13], 0x289b7ec6, 4);
    CodeStepAt(x, 41, d, a, b, c, 0, 0xeaa127fa, 11);
    d := Step(H(a, b, c), d, a, x[0], 0xeaa127fa, 11);
    CodeStepAt(x, 42, c, d, a, b, 3, 0xd4ef3085, 16);
    c := Step(H(d, a, b), c, d, x[3], 0xd4ef3085, 16);
    CodeStepAt(x, 43, b, c, d, a, 6, 0x04881d05, 23);
    b := Step(H(c, d, a), b, c, x[6], 0x04881d05, 23);
    Quarter(x, 40, r, p, State(a, b, c, d));
    p := State(a, b, c, d);
    CodeStepAt(x, 44, a, b, c, d, 9, 0xd9d4d039, 4);
    a := Step(H(b, c, d), a, b, x[9], 0xd9d4d039, 4);
    CodeStepAt(x, 45, d, a, b, c, 12, 0xe6db99e5, 11);
    d := Step(H(a, b, c), d, a, x[12], 0xe6db99e5, 11);
    CodeStepAt(x, 46, c, d, a, b, 15, 0x1fa27cf8, 16);
    c := Step(H(d, a, b), c, d, x[15], 0x1fa27cf8, 16);
    CodeStepAt(x, 47, b, c, d, a, 2, 0xc4ac5665, 23);
    b := Step(H(c, d, a), b, c, x[2], 0xc4ac5665, 23);
    Quarter(x, 44, r, p, State(a, b, c, d));
    p := State(a, b, c, d);
  }

  method Round4(x: seq<bv32>, q: State, ghost r: State) returns (p: State)
    requires |x| == 16 && q == Steps(x, 48, r)
    ensures p == Steps(x, 64, r)
  {
    hide Steps, Step, FastF, FastG, H, I, Operands, CodeStep, WordOf, Sine, RotationOf;
    var a, b, c, d := q.a, q.b, q.c, q.d;
    p := q;
    Operands48();
    Operands56();
    CodeStepAt(x, 48, a, b, c, d, 0, 0xf4292244, 6);
    a := Step(I(b, c, d), a, b, x[0], 0xf4292244, 6);
    CodeStepAt(x, 49, d, a, b, c, 7, 0x432aff97, 10);
    d := Step(I(a, b, c), d, a, x[7], 0x432aff97, 10);
    CodeStepAt(x, 50, c, d, a, b, 14, 0xab9423a7, 15);
    c := Step(I(d, a, b), c, d, x[14], 0xab9423a7, 15);
    CodeStepAt(x, 51, b, c, d, a, 5, 0xfc93a039, 21);
    b := Step(I(c, d, a), b, c, x[5], 0xfc93a039, 21);
    Quarter(x, 48, r, p, State(a, b, c, d));
    p := State(a, b, c, d);
    CodeStepAt(x, 52, a, b, c, d, 12, 0x655b59c3, 6);
    a := Step(I(b, c, d), a, b, x[12], 0x655b59c3, 6);
    CodeStepAt(x, 53, d, a, b, c, 3, 0x8f0ccc92, 10);
    d := Step(I(a, b, c), d, a, x[3], 0x8f0ccc92, 10);
    CodeStepAt(x, 54, c, d, a, b, 10, 0xffeff47d, 15);
    c := Step(I(d, a, b), c, d, x[10], 0xffeff47d, 15);
    CodeStepAt(x, 55, b, c, d, a, 1, 0x85845dd1, 21);
    b := Step(I(c, d, a), b, c, x[1], 0x85845dd1, 21);
    Quarter(x, 52, r, p, State(a, b, c, d));
    p := State(a, b, c, d);
    CodeStepAt(x, 56, a, b, c, d, 8, 0x6fa87e4f, 6);
    a := Step(I(b, c, d), a, b, x[8], 0x6fa87e4f, 6);
    CodeStepAt(x, 57, d, a, b, c, 15, 0xfe2ce6e0, 10);
    d := Step(I(a, b, c), d, a, x[15], 0xfe2ce6e0, 10);
    CodeStepAt(x, 58, c, d, a, b, 6, 0xa3014314, 15);
    c := Step(I(d, a, b), c, d, x[6], 0xa3014314, 15);
    CodeStepAt(x, 59, b, c, d, a, 13, 0x4e0811a1, 21);
    b := Step(I(c, d, a), b, c, x[13], 0x4e0811a1, 21);
    Quarter(x, 56, r, p, State(a, b, c, d));
    p := State(a, b, c, d);
    CodeStepAt(x, 60, a, b, c, d, 4, 0xf7537e82, 6);
    a := Step(I(b, c, d), a, b, x[4], 0xf7537e82, 6);
    CodeStepAt(x, 61, d, a, b, c, 11, 0xbd3af235, 10);
    d := Step(I(a, b, c), d, a, x[11], 0xbd3af235, 10);
    CodeStepAt(x, 62, c, d, a, b, 2, 0x2ad7d2bb, 15);
    c := Step(I(d, a, b), c, d, x[2], 0x2ad7d2bb, 15);
    CodeStepAt(x, 63, b, c, d, a, 9, 0xeb86d391, 21);
    b := Step(I(c, d, a), b, c, x[9], 0xeb86d391, 21);
    Quarter(x, 60, r, p, State(a, b, c, d));
    p := State(a, b, c, d);
  }

  /** One turn of the loop of `ngx_md5_body`. */
  method Block(q: State, x: seq<bv32>) returns (p: State)
    requires |x| == 16
    ensures p == Transform(q, x)
  {
    hide Steps;
    assert Steps(x, 0, q) == q by { NoSteps(x, q); }
    p := Round1(x, q, q);
    p := Round2(x, p, q);
    p := Round3(x, p, q);
    p := Round4(x, p, q);
    p := Add(q, p);
  }

  lemma NoSteps(x: seq<bv32>, q: State)
    requires |x| == 16
    ensures Steps(x, 0, q) == q
  {
  }
}
