/** Known answers of CRC32C, with the register written as eight hexadecimal digits, lowest first. */
module CrcVectors {
  import opened Bytes
  import opened Crc32c
  import opened CrcDivision

  /** Four bits, lowest first. */
  datatype Nibble = Nibble(b0: bool, b1: bool, b2: bool, b3: bool)

  const N0: Nibble := Nibble(false, false, false, false)
  const N1: Nibble := Nibble(true, false, false, false)
  const N2: Nibble := Nibble(false, true, false, false)
  const N3: Nibble := Nibble(true, true, false, false)
  const N4: Nibble := Nibble(false, false, true, false)
  const N5: Nibble := Nibble(true, false, true, false)
  const N6: Nibble := Nibble(false, true, true, false)
  const N7: Nibble := Nibble(true, true, true, false)
  const N8: Nibble := Nibble(false, false, false, true)
  const N9: Nibble := Nibble(true, false, false, true)
  const NA: Nibble := Nibble(false, true, false, true)
  const NB: Nibble := Nibble(true, true, false, true)
  const NC: Nibble := Nibble(false, false, true, true)
  const ND: Nibble := Nibble(true, false, true, true)
  const NE: Nibble := Nibble(false, true, true, true)
  const NF: Nibble := Nibble(true, true, true, true)

  datatype Word =
    Word(n0: Nibble, n1: Nibble, n2: Nibble, n3: Nibble, n4: Nibble, n5: Nibble, n6: Nibble, n7: Nibble)

  predicate Stands(w: Word, c: Register) {
    && c[0] == w.n0.b0 && c[1] == w.n0.b1 && c[2] == w.n0.b2 && c[3] == w.n0.b3
    && c[4] == w.n1.b0 && c[5] == w.n1.b1 && c[6] == w.n1.b2 && c[7] == w.n1.b3
    && c[8] == w.n2.b0 && c[9] == w.n2.b1 && c[10] == w.n2.b2 && c[11] == w.n2.b3
    && c[12] == w.n3.b0 && c[13] == w.n3.b1 && c[14] == w.n3.b2 && c[15] == w.n3.b3
    && c[16] == w.n4.b0 && c[17] == w.n4.b1 && c[18] == w.n4.b2 && c[19] == w.n4.b3
    && c[20] == w.n5.b0 && c[21] == w.n5.b1 && c[22] == w.n5.b2 && c[23] == w.n5.b3
    && c[24] == w.n6.b0 && c[25] == w.n6.b1 && c[26] == w.n6.b2 && c[27] == w.n6.b3
    && c[28] == w.n7.b0 && c[29] == w.n7.b1 && c[30] == w.n7.b2 && c[31] == w.n7.b3
  }

  lemma PolynomialStands()
    ensures Stands(Word(N8, N7, NB, N3, N6, NF, N2, N8), Polynomial())
  {
    hide LowBits;
    LowFront();
    LowBack();
  }

  function Step(w: Word, bit: bool): Word {
    var f := w.n0.b0 != bit;
    Word(
      Nibble(w.n0.b1, w.n0.b2, w.n0.b3, w.n1.b0 != f),
      Nibble(w.n1.b1 != f, w.n1.b2 != f, w.n1.b3 != f, w.n2.b0),
      Nibble(w.n2.b1 != f, w.n2.b2 != f, w.n2.b3, w.n3.b0 != f),
      Nibble(w.n3.b1 != f, w.n3.b2 != f, w.n3.b3, w.n4.b0),
      Nibble(w.n4.b1, w.n4.b2 != f, w.n4.b3 != f, w.n5.b0),
      Nibble(w.n5.b1 != f, w.n5.b2 != f, w.n5.b3 != f, w.n6.b0 != f),
      Nibble(w.n6.b1, w.n6.b2 != f, w.n6.b3, w.n7.b0),
      Nibble(w.n7.b1, w.n7.b2, w.n7.b3, f))
  }

  lemma StepStands(w: Word, c: Register, bit: bool)
    requires Stands(w, c)
    ensures Stands(Step(w, bit), BitStep(c, bit))
  {
    hide LowBits, Polynomial, BitStep;
    PolynomialStands();
  }

  /** The two digits of a byte, the low one first. */
  function FeedByte(w: Word, lo: Nibble, hi: Nibble): Word {
    var v := Step(Step(Step(Step(w, lo.b0), lo.b1), lo.b2), lo.b3);
    Step(Step(Step(Step(v, hi.b0), hi.b1), hi.b2), hi.b3)
  }

  function Digit(n: Nibble): nat {
    (if n.b0 then 1 else 0) + (if n.b1 then 2 else 0) + (if n.b2 then 4 else 0) + (if n.b3 then 8 else 0)
  }

  function BitsOf(n: Nibble): Bits { [n.b0, n.b1, n.b2, n.b3] }

  lemma Halves(n: nat, bit: bool, rest: nat)
    requires n == (if bit then 1 else 0) + 2 * rest
    ensures (n % 2 == 1) == bit && n / 2 == rest
  {
  }

  function One(bit: bool): nat { if bit then 1 else 0 }

  lemma DigitBits(n: Nibble, q: nat)
    ensures var d := Digit(n) + 16 * q;
            [d % 2 == 1, d / 2 % 2 == 1, d / 4 % 2 == 1, d / 8 % 2 == 1] == BitsOf(n) && d / 16 == q
  {
    var d := Digit(n) + 16 * q;
    var d8 := One(n.b3) + 2 * q;
    var d4 := One(n.b2) + 2 * d8;
    var d2 := One(n.b1) + 2 * d4;
    Halves(d, n.b0, d2);
    Halves(d2, n.b1, d4);
    Halves(d4, n.b2, d8);
    Halves(d8, n.b3, q);
  }

  lemma ByteBits(b: byte, lo: Nibble, hi: Nibble)
    requires b == Digit(lo) + 16 * Digit(hi)
    ensures LowBits(b, BYTE_WIDTH) == BitsOf(lo) + BitsOf(hi)
  {
    hide LowBits, Digit;
    LowNibble(b, 8);
    LowNibble(b / 16, 4);
    NoBits(b / 16 / 16);
    DigitBits(lo, Digit(hi));
    DigitBits(hi, 0);
  }

  lemma FourSteps(w: Word, c: Register, n: Nibble)
    requires Stands(w, c)
    ensures Stands(Step(Step(Step(Step(w, n.b0), n.b1), n.b2), n.b3), Run(c, BitsOf(n)))
  {
    hide Stands, Step, BitStep;
    var s1 := [n.b1, n.b2, n.b3];
    var s2 := [n.b2, n.b3];
    var s3 := [n.b3];
    assert BitsOf(n)[1..] == s1 && s1[1..] == s2 && s2[1..] == s3 && s3[1..] == [];
    var c1 := BitStep(c, n.b0);
    var c2 := BitStep(c1, n.b1);
    var c3 := BitStep(c2, n.b2);
    var c4 := BitStep(c3, n.b3);
    assert Run(c, BitsOf(n)) == Run(c1, s1) == Run(c2, s2) == Run(c3, s3) == Run(c4, []) == c4;
    StepStands(w, c, n.b0);
    StepStands(Step(w, n.b0), c1, n.b1);
    StepStands(Step(Step(w, n.b0), n.b1), c2, n.b2);
    StepStands(Step(Step(Step(w, n.b0), n.b1), n.b2), c3, n.b3);
  }

  /** The register after the first `k` bytes. */
  function After(data: bytes, k: nat): Register
    requires k <= |data|
  {
    Run(Initial(), MessageBits(data[..k]))
  }

  function NibbleAt(c: Register, k: nat): Nibble
    requires k + 4 <= 32
  {
    Nibble(c[k], c[k + 1], c[k + 2], c[k + 3])
  }

  function WordOf(c: Register): (w: Word)
    ensures Stands(w, c)
  {
    Word(NibbleAt(c, 0), NibbleAt(c, 4), NibbleAt(c, 8), NibbleAt(c, 12),
         NibbleAt(c, 16), NibbleAt(c, 20), NibbleAt(c, 24), NibbleAt(c, 28))
  }

  lemma SameWord(w: Word, c: Register)
    requires Stands(w, c)
    ensures w == WordOf(c)
  {
  }

  lemma Fed(data: bytes, k: nat, lo: Nibble, hi: Nibble)
    requires k < |data| && data[k] == Digit(lo) + 16 * Digit(hi)
    ensures WordOf(After(data, k + 1)) == FeedByte(WordOf(After(data, k)), lo, hi)
  {
    hide Run, Stands, Step, LowBits, WordOf, Digit;
    var c := After(data, k);
    assert data[..k + 1] == data[..k] + [data[k]];
    MessageBitsAppend(data[..k], [data[k]]);
    assert [data[k]][1..] == [];
    assert MessageBits([data[k]]) == LowBits(data[k], BYTE_WIDTH) + MessageBits([]);
    ByteBits(data[k], lo, hi);
    assert MessageBits([data[k]]) == BitsOf(lo) + BitsOf(hi);
    RunAppend(Initial(), MessageBits(data[..k]), BitsOf(lo) + BitsOf(hi));
    RunAppend(c, BitsOf(lo), BitsOf(hi));
    var w := WordOf(c);
    FourSteps(w, c, lo);
    FourSteps(Step(Step(Step(Step(w, lo.b0), lo.b1), lo.b2), lo.b3), Run(c, BitsOf(lo)), hi);
    SameWord(FeedByte(w, lo, hi), After(data, k + 1));
  }

  lemma StartWord(data: bytes)
    ensures WordOf(After(data, 0)) == Word(NF, NF, NF, NF, NF, NF, NF, NF)
  {
    assert data[..0] == [];
  }

  function Number(w: Word): nat {
    Digit(w.n0) + 16 * (Digit(w.n1) + 16 * (Digit(w.n2) + 16 * (Digit(w.n3)
      + 16 * (Digit(w.n4) + 16 * (Digit(w.n5) + 16 * (Digit(w.n6) + 16 * Digit(w.n7)))))))
  }

  lemma FourValues(b: Bits, k: nat)
    requires k + 4 <= |b|
    ensures Value(b[k..]) == Digit(Nibble(b[k], b[k + 1], b[k + 2], b[k + 3])) + 16 * Value(b[k + 4..])
  {
    assert b[k..][1..] == b[k + 1..] && b[k + 1..][1..] == b[k + 2..];
    assert b[k + 2..][1..] == b[k + 3..] && b[k + 3..][1..] == b[k + 4..];
    assert Value(b[k..]) == One(b[k]) + 2 * Value(b[k + 1..]);
    assert Value(b[k + 1..]) == One(b[k + 1]) + 2 * Value(b[k + 2..]);
    assert Value(b[k + 2..]) == One(b[k + 2]) + 2 * Value(b[k + 3..]);
    assert Value(b[k + 3..]) == One(b[k + 3]) + 2 * Value(b[k + 4..]);
  }

  lemma Complemented(n: Nibble)
    ensures Digit(Nibble(!n.b0, !n.b1, !n.b2, !n.b3)) == 15 - Digit(n)
  {
  }

  lemma ChecksumNumber(data: bytes)
    ensures Checksum(data) == 0xFFFF_FFFF - Number(WordOf(After(data, |data|)))
  {
    assert data[..|data|] == data;
    var c := After(data, |data|);
    NumberOf(c);
  }

  lemma DigitFlipped(c: Register, k: nat)
    requires k + 4 <= 32
    ensures var d := Complement(c);
            Value(d[k..]) == 15 - Digit(NibbleAt(c, k)) + 16 * Value(d[k + 4..])
  {
    FourValues(Complement(c), k);
    Complemented(NibbleAt(c, k));
  }

  lemma NumberOf(c: Register)
    ensures Value(Complement(c)) == 0xFFFF_FFFF - Number(WordOf(c))
  {
    hide Digit, Complement, Value, Stands, NibbleAt;
    var d: Bits := Complement(c);
    assert d[0..] == d && d[32..] == [];
    var w := WordOf(c);
    NoValue();
    DigitFlipped(c, 28);
    DigitFlipped(c, 24);
    DigitFlipped(c, 20);
    DigitFlipped(c, 16);
    assert Value(d[16..]) ==
           0xFFFF - (Digit(w.n4) + 16 * (Digit(w.n5) + 16 * (Digit(w.n6) + 16 * Digit(w.n7))));
    DigitFlipped(c, 12);
    DigitFlipped(c, 8);
    DigitFlipped(c, 4);
    DigitFlipped(c, 0);
  }

  lemma NoValue()
    ensures Value([]) == 0
  {
  }

  lemma Digits1()
    ensures FeedByte(Word(NF, NF, NF, NF, NF, NF, NF, NF), N1, N3) ==
            Word(NC, N1, N6, N6, NA, N0, NF, N6)
    ensures FeedByte(Word(NC, N1, N6, N6, NA, N0, NF, N6), N2, N3) ==
            Word(NF, N9, NB, N3, NA, NA, NC, N8)
    ensures FeedByte(Word(NF, N9, NB, N3, NA, NA, NC, N8), N3, N3) ==
            Word(ND, N4, N0, ND, N4, N8, NF, NE)
  {
  }

  lemma Digits2()
    ensures FeedByte(Word(ND, N4, N0, ND, N4, N8, NF, NE), N4, N3) ==
            Word(N1, N1, NB, N0, N5, NC, N9, N0)
    ensures FeedByte(Word(N1, N1, NB, N0, N5, NC, N9, N0), N5, N3) ==
            Word(NA, NC, NC, ND, NE, N2, N7, NE)
    ensures FeedByte(Word(NA, NC, NC, ND, NE, N2, N7, NE), N6, N3) ==
            Word(N9, N7, NE, N8, NA, NC, NE, NB)
  {
  }

  lemma Digits3()
    ensures FeedByte(Word(N9, N7, NE, N8, NA, NC, NE, NB), N7, N3) ==
            Word(N5, N1, N8, N6, ND, NB, ND, NE)
    ensures FeedByte(Word(N5, N1, N8, N6, ND, NB, ND, NE), N8, N3) ==
            Word(N5, N6, NF, N7, N8, N7, NF, N9)
    ensures FeedByte(Word(N5, N6, NF, N7, N8, N7, NF, N9), N9, N3) ==
            Word(NC, N7, ND, N6, N9, NF, NC, N1)
  {
  }

  /** The digits one to nine. */
  const DIGITS: bytes := [0x31, 0x32, 0x33, 0x34, 0x35, 0x36, 0x37, 0x38, 0x39]

  lemma DigitsFed(d: bytes)
    requires d == DIGITS
    ensures WordOf(After(d, 9)) == Word(NC, N7, ND, N6, N9, NF, NC, N1)
  {
    hide FeedByte, Checksum, After, WordOf, Run, MessageBits, Value, Step, Number, Stands;
    StartWord(d);
    Fed(d, 0, N1, N3);
    Fed(d, 1, N2, N3);
    Fed(d, 2, N3, N3);
    Fed(d, 3, N4, N3);
    Fed(d, 4, N5, N3);
    Fed(d, 5, N6, N3);
    Fed(d, 6, N7, N3);
    Fed(d, 7, N8, N3);
    Fed(d, 8, N9, N3);
    Digits1();
    Digits2();
    Digits3();
  }

  /** The answer that most descriptions of CRC32C give. */
  lemma KnownDigits()
    ensures Checksum(DIGITS) == 0xE306_9283
  {
    hide FeedByte, Checksum, After, WordOf, Run, MessageBits, Value, Step, Stands;
    DigitsFed(DIGITS);
    ChecksumNumber(DIGITS);
  }

  lemma Zeros1()
    ensures FeedByte(Word(NF, NF, NF, NF, NF, NF, NF, NF), N0, N0) ==
            Word(NE, NA, NC, NA, N2, N8, ND, NA)
    ensures FeedByte(Word(NE, NA, NC, NA, N2, N8, ND, NA), N0, N0) ==
            Word(ND, N2, N8, N8, NE, N9, NE, N0)
    ensures FeedByte(Word(ND, N2, N8, N8, NE, N9, NE, N0), N0, N0) ==
            Word(N5, N8, NC, N5, NB, N9, NF, N9)
    ensures FeedByte(Word(N5, N8, NC, N5, NB, N9, NF, N9), N0, N0) ==
            Word(N8, N3, N4, NB, N8, N9, N7, NB)
  {
  }

  lemma Zeros2()
    ensures FeedByte(Word(N8, N3, N4, NB, N8, N9, N7, NB), N0, N0) ==
            Word(NA, NC, N9, N8, ND, N8, NA, NB)
    ensures FeedByte(Word(NA, NC, N9, N8, ND, N8, NA, NB), N0, N0) ==
            Word(N5, N7, N3, N8, N5, ND, N8, NA)
    ensures FeedByte(Word(N5, N7, N3, N8, N5, ND, N8, NA), N0, N0) ==
            Word(N2, N9, N5, N9, N1, NC, N4, N4)
    ensures FeedByte(Word(N2, N9, N5, N9, N1, NC, N4, N4), N0, N0) ==
            Word(N5, N7, ND, N4, N7, ND, N3, N7)
  {
  }

  lemma Zeros3()
    ensures FeedByte(Word(N5, N7, ND, N4, N7, ND, N3, N7), N0, N0) ==
            Word(NC, N5, N7, N9, NA, N1, N4, N4)
    ensures FeedByte(Word(NC, N5, N7, N9, NA, N1, N4, N4), N0, N0) ==
            Word(N4, N9, NF, N0, N2, N2, NC, N1)
    ensures FeedByte(Word(N4, N9, NF, N0, N2, N2, NC, N1), N0, N0) ==
            Word(N7, N0, N9, N4, NE, N2, N5, N5)
    ensures FeedByte(Word(N7, N0, N9, N4, NE, N2, N5, N5), N0, N0) ==
            Word(N2, NA, NA, N4, NF, N9, N4, ND)
  {
  }

  lemma Zeros4()
    ensures FeedByte(Word(N2, NA, NA, N4, NF, N9, N4, ND), N0, N0) ==
            Word(NB, N1, NA, N5, N4, NA, N3, N4)
    ensures FeedByte(Word(NB, N1, NA, N5, N4, NA, N3, N4), N0, N0) ==
            Word(NE, N0, N8, NC, N4, N9, N9, N8)
    ensures FeedByte(Word(NE, N0, N8, NC, N4, N9, N9, N8), N0, N0) ==
            Word(NF, NE, NB, N2, N1, NF, NC, NA)
    ensures FeedByte(Word(NF, NE, NB, N2, N1, NF, NC, NA), N0, N0) ==
            Word(N5, N1, N5, N6, NF, N8, ND, NB)
  {
  }

  lemma Zeros5()
    ensures FeedByte(Word(N5, N1, N5, N6, NF, N8, ND, NB), N0, N0) ==
            Word(N6, N1, NC, N5, N2, N1, N5, N2)
    ensures FeedByte(Word(N6, N1, NC, N5, N2, N1, N5, N2), N0, N0) ==
            Word(NB, ND, N2, N3, NA, ND, N6, N3)
    ensures FeedByte(Word(NB, ND, N2, N3, NA, ND, N6, N3), N0, N0) ==
            Word(N2, NA, N0, N9, NC, N6, NA, N4)
    ensures FeedByte(Word(N2, NA, N0, N9, NC, N6, NA, N4), N0, N0) ==
            Word(N1, NC, N9, NA, NA, N3, N3, N4)
  {
  }

  lemma Zeros6()
    ensures FeedByte(Word(N1, NC, N9, NA, NA, N3, N3, N4), N0, N0) ==
            Word(NE, N6, NF, N9, N5, NA, N1, N3)
    ensures FeedByte(Word(NE, N6, NF, N9, N5, NA, N1, N3), N0, N0) ==
            Word(NA, ND, N9, N8, NF, N8, ND, NC)
    ensures FeedByte(Word(NA, ND, N9, N8, NF, N8, ND, NC), N0, N0) ==
            Word(NA, N1, N6, N4, NC, NF, N8, NB)
    ensures FeedByte(Word(NA, N1, N6, N4, NC, NF, N8, NB), N0, N0) ==
            Word(N1, N1, N3, N1, N4, N0, NB, N7)
  {
  }

  lemma Zeros7()
    ensures FeedByte(Word(N1, N1, N3, N1, N4, N0, NB, N7), N0, N0) ==
            Word(NF, N7, N0, N4, NE, N4, N2, NE)
    ensures FeedByte(Word(NF, N7, N0, N4, NE, N4, N2, NE), N0, N0) ==
            Word(N9, N6, N6, N2, N9, N6, NF, N2)
    ensures FeedByte(Word(N9, N6, N6, N2, N9, N6, NF, N2), N0, N0) ==
            Word(N8, N8, N1, N2, NB, N5, N9, N1)
    ensures FeedByte(Word(N8, N8, N1, N2, NB, N5, N9, N1), N0, N0) ==
            Word(N6, N9, N8, N3, N6, N3, N8, N0)
  {
  }

  lemma Zeros8()
    ensures FeedByte(Word(N6, N9, N8, N3, N6, N3, N8, N0), N0, N0) ==
            Word(N7, NC, ND, N2, N1, N0, N4, NB)
    ensures FeedByte(Word(N7, NC, ND, N2, N1, N0, N4, NB), N0, N0) ==
            Word(N2, N0, N3, N4, N3, NF, N7, N1)
    ensures FeedByte(Word(N2, N0, N3, N4, N3, NF, N7, N1), N0, N0) ==
            Word(N4, NB, N3, N8, NC, N2, N1, NE)
    ensures FeedByte(Word(N4, NB, N3, N8, NC, N2, N1, NE), N0, N0) ==
            Word(N5, N5, N9, NC, NE, N6, N5, N7)
  {
  }

  function ZeroBytes(): (d: bytes)
    ensures |d| == 32 && forall i :: 0 <= i < 32 ==> d[i] == 0
  {
    seq(32, _ => 0)
  }

  lemma ZerosFed(k: nat)
    requires k < 32
    ensures WordOf(After(ZeroBytes(), k + 1)) == FeedByte(WordOf(After(ZeroBytes(), k)), N0, N0)
  {
    Fed(ZeroBytes(), k, N0, N0);
  }

  lemma ZerosWord()
    ensures WordOf(After(ZeroBytes(), 32)) == Word(N5, N5, N9, NC, NE, N6, N5, N7)
  {
    hide FeedByte, After, WordOf, ZeroBytes;
    StartWord(ZeroBytes());
    ZerosFed(0); ZerosFed(1); ZerosFed(2); ZerosFed(3);
    Zeros1();
    ZerosFed(4); ZerosFed(5); ZerosFed(6); ZerosFed(7);
    Zeros2();
    ZerosFed(8); ZerosFed(9); ZerosFed(10); ZerosFed(11);
    Zeros3();
    ZerosFed(12); ZerosFed(13); ZerosFed(14); ZerosFed(15);
    Zeros4();
    ZerosFed(16); ZerosFed(17); ZerosFed(18); ZerosFed(19);
    Zeros5();
    ZerosFed(20); ZerosFed(21); ZerosFed(22); ZerosFed(23);
    Zeros6();
    ZerosFed(24); ZerosFed(25); ZerosFed(26); ZerosFed(27);
    Zeros7();
    ZerosFed(28); ZerosFed(29); ZerosFed(30); ZerosFed(31);
    Zeros8();
  }

  /** Thirty-two zero bytes, the first example of section B.4 of RFC 3720. */
  lemma KnownZeros()
    ensures Checksum(ZeroBytes()) == 0x8A91_36AA
  {
    hide FeedByte, Checksum, After, WordOf, Run, MessageBits, Value, Step, Stands;
    ZerosWord();
    ChecksumNumber(ZeroBytes());
  }

  /** A shareable record without tags and with the payload `hi`, up to its checksum. */
  const RECORD: bytes := [0xB0, 0x01, 0x00, 0x00, 0x02, 0x00, 0x00, 0x00, 0x68, 0x69]

  lemma Record1()
    ensures FeedByte(Word(NF, NF, NF, NF, NF, NF, NF, NF), N0, NB) ==
            Word(N7, N6, NE, ND, N7, N9, NF, N1)
    ensures FeedByte(Word(N7, N6, NE, ND, N7, N9, NF, N1), N1, N0) ==
            Word(N4, N5, N3, NE, N8, N7, N7, N4)
    ensures FeedByte(Word(N4, N5, N3, NE, N8, N7, N7, N4), N0, N0) ==
            Word(NF, N2, N5, N3, N8, NF, N6, N9)
    ensures FeedByte(Word(NF, N2, N5, N3, N8, NF, N6, N9), N0, N0) ==
            Word(NF, NC, NA, N4, N8, N3, NE, N7)
  {
  }

  lemma Record2()
    ensures FeedByte(Word(NF, NC, NA, N4, N8, N3, NE, N7), N2, N0) ==
            Word(ND, N5, N2, N5, NB, ND, NC, N7)
    ensures FeedByte(Word(ND, N5, N2, N5, NB, ND, NC, N7), N0, N0) ==
            Word(N2, N5, ND, N4, N1, N7, NE, NE)
    ensures FeedByte(Word(N2, N5, ND, N4, N1, N7, NE, NE), N0, N0) ==
            Word(N9, N6, NB, ND, N0, NF, N0, NB)
    ensures FeedByte(Word(N9, N6, NB, ND, N0, NF, N0, NB), N0, N0) ==
            Word(N5, N7, N8, NB, N4, NC, N9, N1)
  {
  }

  lemma Record3()
    ensures FeedByte(Word(N5, N7, N8, NB, N4, NC, N9, N1), N8, N6) ==
            Word(N4, N0, NF, N4, NF, N6, NF, NA)
    ensures FeedByte(Word(N4, N0, NF, N4, NF, N6, NF, NA), N9, N6) ==
            Word(NE, NF, N0, NB, N1, N4, NE, ND)
  {
  }

  lemma RecordFed(d: bytes)
    requires d == RECORD
    ensures WordOf(After(d, 10)) == Word(NE, NF, N0, NB, N1, N4, NE, ND)
  {
    hide FeedByte, Checksum, After, WordOf, Run, MessageBits, Value, Step, Number, Stands;
    StartWord(d);
    Fed(d, 0, N0, NB);
    Fed(d, 1, N1, N0);
    Fed(d, 2, N0, N0);
    Fed(d, 3, N0, N0);
    Fed(d, 4, N2, N0);
    Fed(d, 5, N0, N0);
    Fed(d, 6, N0, N0);
    Fed(d, 7, N0, N0);
    Fed(d, 8, N8, N6);
    Fed(d, 9, N9, N6);
    Record1();
    Record2();
    Record3();
  }

  lemma KnownRecordChecksum()
    ensures Checksum(RECORD) == 0x21BE_4F01
  {
    hide FeedByte, Checksum, After, WordOf, Run, MessageBits, Value, Step, Stands;
    RecordFed(RECORD);
    ChecksumNumber(RECORD);
  }
}
