/**
 That the shift register computes the CRC32C of section 12.1 of RFC 3720, stated without it: as the
 remainder of a long division of bits, highest power first, and by known answers.
 */
module CrcDivision {
  import opened Bytes
  import opened Crc32c

  /** The generator without its leading term x^32: the coefficients of x^31 down to x^0 of 0x11EDC6F41. */
  function Generator(): (g: Bits)
    ensures |g| == 32
  {
    HighBits(0x1EDC_6F41, WORD_WIDTH)
  }

  /** The `k` low bits of `n`, most significant first. */
  function HighBits(n: nat, k: nat): (r: Bits)
    ensures |r| == k
  {
    if k == 0 then [] else HighBits(n / 2, k - 1) + [n % 2 == 1]
  }

  /** Adds `g` to the leading bits of `s`, modulo 2. */
  function AddFront(s: Bits, g: Bits): (r: Bits)
    requires |g| <= |s|
    ensures |r| == |s|
    ensures forall i :: 0 <= i < |s| ==> r[i] == (s[i] != (i < |g| && g[i]))
  {
    seq(|s|, i requires 0 <= i < |s| => s[i] != (i < |g| && g[i]))
  }

  /** Long division: while more than 32 bits are left, cancel the first and drop it. */
  function Remainder(s: Bits): (r: Bits)
    requires 32 <= |s|
    ensures |r| == 32
    decreases |s|
  {
    if |s| == 32 then s
    else Remainder(if s[0] then AddFront(s[1..], Generator()) else s[1..])
  }

  function Ones(): Bits { seq(32, _ => true) }

  function Zeros(): Bits { seq(32, _ => false) }

  /** The message times x^32, with its first 32 bits complemented. */
  function Dividend(message: Bits): (r: Bits)
    ensures |r| == |message| + 32
  {
    AddFront(message + Zeros(), Ones())
  }

  // ---- the register divides ---------------------------------------------------------------

  lemma LowNibble(n: nat, k: nat)
    requires 4 <= k
    ensures LowBits(n, k) ==
            [n % 2 == 1, n / 2 % 2 == 1, n / 4 % 2 == 1, n / 8 % 2 == 1] + LowBits(n / 16, k - 4)
  {
    assert LowBits(n, k) == [n % 2 == 1] + LowBits(n / 2, k - 1);
    assert LowBits(n / 2, k - 1) == [n / 2 % 2 == 1] + LowBits(n / 4, k - 2);
    assert LowBits(n / 4, k - 2) == [n / 4 % 2 == 1] + LowBits(n / 8, k - 3);
    assert LowBits(n / 8, k - 3) == [n / 8 % 2 == 1] + LowBits(n / 16, k - 4);
  }

  lemma HighNibble(n: nat, k: nat)
    requires 4 <= k
    ensures HighBits(n, k) ==
            HighBits(n / 16, k - 4) + [n / 8 % 2 == 1, n / 4 % 2 == 1, n / 2 % 2 == 1, n % 2 == 1]
  {
    assert HighBits(n, k) == HighBits(n / 2, k - 1) + [n % 2 == 1];
    assert HighBits(n / 2, k - 1) == HighBits(n / 4, k - 2) + [n / 2 % 2 == 1];
    assert HighBits(n / 4, k - 2) == HighBits(n / 8, k - 3) + [n / 4 % 2 == 1];
    assert HighBits(n / 8, k - 3) == HighBits(n / 16, k - 4) + [n / 8 % 2 == 1];
  }

  const FRONT: Bits :=
    [false, false, false, true, true, true, true, false, true, true, false, true, true, true, false, false]
  const BACK: Bits :=
    [false, true, true, false, true, true, true, true, false, true, false, false, false, false, false, true]

  lemma LowFront()
    ensures LowBits(0x82F63B78, 32) == FRONT + LowBits(0x82F6, 16)
  {
    hide LowBits;
    LowNibble(0x82F63B78, 32);
    LowNibble(0x82F63B7, 28);
    LowNibble(0x82F63B, 24);
    LowNibble(0x82F63, 20);
  }

  lemma LowBack()
    ensures LowBits(0x82F6, 16) == BACK
  {
    hide LowBits;
    LowNibble(0x82F6, 16);
    LowNibble(0x82F, 12);
    LowNibble(0x82, 8);
    LowNibble(0x8, 4);
    NoBits(0);
  }

  lemma HighBack()
    ensures HighBits(0x1EDC6F41, 32) == HighBits(0x1EDC, 16) + BACK
  {
    hide HighBits;
    HighNibble(0x1EDC6F41, 32);
    HighNibble(0x1EDC6F4, 28);
    HighNibble(0x1EDC6F, 24);
    HighNibble(0x1EDC6, 20);
  }

  lemma HighFront()
    ensures HighBits(0x1EDC, 16) == FRONT
  {
    hide HighBits;
    HighNibble(0x1EDC, 16);
    HighNibble(0x1ED, 12);
    HighNibble(0x1E, 8);
    HighNibble(0x1, 4);
    NoBits(0);
  }

  lemma NoBits(n: nat)
    ensures LowBits(n, 0) == [] && HighBits(n, 0) == []
  {
  }

  /** The register's polynomial is the generator, read from the other end. */
  lemma PolynomialIsGenerator()
    ensures Polynomial() == Generator()
  {
    hide LowBits, HighBits;
    LowFront();
    LowBack();
    HighFront();
    HighBack();
  }

  /** Feeding one bit is one step of the division. */
  lemma StepDivides(c: Register, bit: bool, message: Bits)
    ensures var s := AddFront([bit] + message + Zeros(), c);
            var s' := AddFront(message + Zeros(), BitStep(c, bit));
            s' == if s[0] then AddFront(s[1..], Generator()) else s[1..]
  {
    hide LowBits, HighBits, Generator, Polynomial, BitStep;
    PolynomialIsGenerator();
    var s := AddFront([bit] + message + Zeros(), c);
    var next := if s[0] then AddFront(s[1..], Generator()) else s[1..];
    var s' := AddFront(message + Zeros(), BitStep(c, bit));
    forall i | 0 <= i < |next|
      ensures s'[i] == next[i]
    {
      assert ([bit] + message + Zeros())[i + 1] == (message + Zeros())[i];
    }
  }

  /** The register after a message is the remainder of the message with the register added in front. */
  lemma {:induction false} RunDivides(c: Register, message: Bits)
    ensures Run(c, message) == Remainder(AddFront(message + Zeros(), c))
    decreases |message|
  {
    hide Generator, BitStep, AddFront;
    if message == [] {
      assert AddFront(message + Zeros(), c) == c;
    } else {
      StepDivides(c, message[0], message[1..]);
      assert [message[0]] + message[1..] == message;
      RunDivides(BitStep(c, message[0]), message[1..]);
    }
  }

  /**
   The checksum, read as bits from the lowest, is the complement of the remainder that the message
   leaves: for every message, as the standard prescribes it.
   */
  lemma ChecksumIsRemainder(data: bytes)
    ensures var r := Remainder(Dividend(MessageBits(data)));
            LowBits(Checksum(data), 32) == seq(32, i requires 0 <= i < 32 => !r[i])
  {
    hide Remainder, Generator, LowBits, Polynomial;
    RunDivides(Initial(), MessageBits(data));
    assert Initial() == Ones();
    var r := Run(Initial(), MessageBits(data));
    ValueBits(Complement(r));
    assert Complement(r) == seq(32, i requires 0 <= i < 32 => !r[i]);
  }

  lemma {:induction false} ValueBits(b: Bits)
    ensures LowBits(Value(b), |b|) == b
  {
    if b != [] {
      ValueBits(b[1..]);
      assert b == [b[0]] + b[1..];
    }
  }
}
