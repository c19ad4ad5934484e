/**
 CRC32C (section 12.1 of RFC 3720) in its serial form: a 32-bit shift register fed one message
 bit at a time, least significant bit of each byte first.

 The register is a sequence of 32 bits, index 0 being the one shifted out.  Because the top bit
 of the polynomial is set, the register after a step shows whether feedback took place.  That
 makes the step injective in the register, and makes any 32 consecutive message bits recoverable
 from the registers around them: equal checksums rule out every error burst of up to 32 bits.
 */
module Crc32c {
  import opened Bytes

  type Bits = seq<bool>

  function Pow2(k: nat): (p: nat)
    ensures 0 < p
  {
    if k == 0 then 1 else 2 * Pow2(k - 1)
  }

  lemma Pow2Of32()
    ensures Pow2(8) == 256 && Pow2(31) == 0x8000_0000 && Pow2(32) == 0x1_0000_0000
  {
    assert Pow2(4) == 16;
    assert Pow2(8) == 256;
    assert Pow2(12) == 0x1000;
    assert Pow2(16) == 0x1_0000;
    assert Pow2(20) == 0x10_0000;
    assert Pow2(24) == 0x100_0000;
    assert Pow2(28) == 0x1000_0000;
  }

  /** The `k` low bits of `n`, least significant first. */
  function LowBits(n: nat, k: nat): (r: Bits)
    ensures |r| == k
  {
    if k == 0 then [] else [n % 2 == 1] + LowBits(n / 2, k - 1)
  }

  function Value(r: Bits): (n: nat)
    ensures n < Pow2(|r|)
  {
    if r == [] then 0 else (if r[0] then 1 else 0) + 2 * Value(r[1..])
  }

  // Named, so that the verifier does not unroll `LowBits` wherever it appears.
  const BYTE_WIDTH: nat := 8
  const WORD_WIDTH: nat := 32

  function MessageBits(data: bytes): (r: Bits)
    ensures |r| == 8 * |data|
  {
    if data == [] then [] else LowBits(data[0], BYTE_WIDTH) + MessageBits(data[1..])
  }

  /** The Castagnoli polynomial, bit-reversed as the register is. */
  function Polynomial(): (r: Bits)
    ensures |r| == 32 && r[31]
  {
    Pow2Of32();
    TopBit(0x82F6_3B78, WORD_WIDTH);
    LowBits(0x82F6_3B78, WORD_WIDTH)
  }

  type Register = c: Bits | |c| == 32 witness seq(32, _ => false)

  function Shifted(c: Register, feedback: bool, p: Register): (r: Register)
    ensures forall i :: 0 <= i < 31 ==> r[i] == (c[i + 1] != (feedback && p[i]))
    ensures r[31] == (feedback && p[31])
  {
    seq(32, i requires 0 <= i < 32 => (i < 31 && c[i + 1]) != (feedback && p[i]))
  }

  /** One message bit: shift, and add the polynomial when the two outgoing bits differ. */
  function BitStep(c: Register, bit: bool): (r: Register)
    ensures forall i :: 0 <= i < 31 ==> r[i] == (c[i + 1] != (c[0] != bit && Polynomial()[i]))
    ensures r[31] == (c[0] != bit)
  {
    Shifted(c, c[0] != bit, Polynomial())
  }

  function Run(c: Register, message: Bits): Register
    decreases |message|
  {
    if message == [] then c else Run(BitStep(c, message[0]), message[1..])
  }

  function Complement(c: Register): (r: Register)
    ensures forall i :: 0 <= i < 32 ==> r[i] == !c[i]
  {
    seq(32, i requires 0 <= i < 32 => !c[i])
  }

  function Initial(): Register { seq(32, _ => true) }

  function Checksum(data: bytes): u32 {
    Pow2Of32();
    Value(Complement(Run(Initial(), MessageBits(data))))
  }

  lemma {:induction false} TopBit(n: nat, k: nat)
    requires 1 <= k && n < Pow2(k)
    ensures LowBits(n, k)[k - 1] <==> Pow2(k - 1) <= n
  {
    if k > 1 {
      TopBit(n / 2, k - 1);
    }
  }

  lemma {:induction false} LowBitsInjective(m: nat, n: nat, k: nat)
    requires m < Pow2(k) && n < Pow2(k) && LowBits(m, k) == LowBits(n, k)
    ensures m == n
  {
    if k > 0 {
      assert LowBits(m, k)[0] == LowBits(n, k)[0];
      assert LowBits(m, k)[1..] == LowBits(m / 2, k - 1) && LowBits(n, k)[1..] == LowBits(n / 2, k - 1);
      LowBitsInjective(m / 2, n / 2, k - 1);
    }
  }

  lemma {:induction false} ValueInjective(a: Bits, b: Bits)
    requires |a| == |b| && Value(a) == Value(b)
    ensures a == b
  {
    if a != [] {
      ValueInjective(a[1..], b[1..]);
      assert a == [a[0]] + a[1..] && b == [b[0]] + b[1..];
    }
  }

  lemma {:induction false} MessageBitsAppend(a: bytes, b: bytes)
    ensures MessageBits(a + b) == MessageBits(a) + MessageBits(b)
  {
    if a == [] {
      assert a + b == b;
    } else {
      assert (a + b)[1..] == a[1..] + b;
      MessageBitsAppend(a[1..], b);
    }
  }

  lemma {:induction false} MessageBitsInjective(a: bytes, b: bytes)
    requires |a| == |b| && MessageBits(a) == MessageBits(b)
    ensures a == b
  {
    if a != [] {
      assert MessageBits(a)[..8] == LowBits(a[0], BYTE_WIDTH) && MessageBits(b)[..8] == LowBits(b[0], BYTE_WIDTH);
      assert MessageBits(a)[8..] == MessageBits(a[1..]) && MessageBits(b)[8..] == MessageBits(b[1..]);
      Pow2Of32();
      LowBitsInjective(a[0], b[0], BYTE_WIDTH);
      MessageBitsInjective(a[1..], b[1..]);
      assert a == [a[0]] + a[1..] && b == [b[0]] + b[1..];
    }
  }

  lemma {:induction false} RunAppend(c: Register, a: Bits, b: Bits)
    ensures Run(c, a + b) == Run(Run(c, a), b)
    decreases |a|
  {
    if a == [] {
      assert a + b == b;
    } else {
      assert (a + b)[1..] == a[1..] + b;
      RunAppend(BitStep(c, a[0]), a[1..], b);
    }
  }

  /** One bit run backwards: what two registers share above `n - 1` they shared above `n` before. */
  lemma StepBack(c: Register, d: Register, a: bool, b: bool, n: nat)
    requires 1 <= n <= 32
    requires forall i :: n - 1 <= i < 32 ==> BitStep(c, a)[i] == BitStep(d, b)[i]
    ensures forall i :: n <= i < 32 ==> c[i] == d[i]
    ensures c == d ==> a == b
  {
    hide BitStep, Polynomial;
    var c', d' := BitStep(c, a), BitStep(d, b);
    assert c'[31] == d'[31];
    forall i | n <= i < 32
      ensures c[i] == d[i]
    {
      assert c'[i - 1] == d'[i - 1];
    }
  }

  /** For a fixed message the register after it determines the register before it. */
  lemma {:induction false} RunInjective(c: Register, d: Register, message: Bits)
    requires Run(c, message) == Run(d, message)
    ensures c == d
    decreases |message|
  {
    hide BitStep, Polynomial;
    if message != [] {
      var bit := message[0];
      RunInjective(BitStep(c, bit), BitStep(d, bit), message[1..]);
      StepBack(c, d, bit, bit, 1);
      assert BitStep(c, bit)[31] == BitStep(d, bit)[31];
      assert forall i :: 0 <= i < 32 ==> c[i] == d[i];
    }
  }

  /** Two messages of at most 32 bits that take the same register to the same register are equal. */
  lemma {:induction false} ShortRunsDiffer(c: Register, d: Register, u: Bits, v: Bits)
    requires |u| == |v| <= 32 && Run(c, u) == Run(d, v)
    ensures forall i :: |u| <= i < 32 ==> c[i] == d[i]
    ensures c == d ==> u == v
    decreases |u|
  {
    hide BitStep, Polynomial;
    if u != [] {
      ShortRunsDiffer(BitStep(c, u[0]), BitStep(d, v[0]), u[1..], v[1..]);
      StepBack(c, d, u[0], v[0], |u|);
      if c == d {
        assert u == [u[0]] + u[1..] && v == [v[0]] + v[1..];
      }
    }
  }

  lemma ChecksumShowsRegister(a: bytes, b: bytes)
    requires Checksum(a) == Checksum(b)
    ensures Run(Initial(), MessageBits(a)) == Run(Initial(), MessageBits(b))
  {
    var r, s := Run(Initial(), MessageBits(a)), Run(Initial(), MessageBits(b));
    var c, d := Complement(r), Complement(s);
    ValueInjective(c, d);
    forall i | 0 <= i < 32
      ensures r[i] == s[i]
    {
      assert c[i] == d[i];
    }
  }

  /** Two messages that differ only within 32 consecutive bits, wherever they start, leave different registers. */
  lemma BitBurstDetected(pre: Bits, u: Bits, v: Bits, post: Bits)
    requires |u| == |v| <= 32
    requires Run(Initial(), pre + u + post) == Run(Initial(), pre + v + post)
    ensures u == v
  {
    var c := Run(Initial(), pre);
    RunAppend(Initial(), pre + u, post);
    RunAppend(Initial(), pre, u);
    RunAppend(Initial(), pre + v, post);
    RunAppend(Initial(), pre, v);
    RunInjective(Run(c, u), Run(c, v), post);
    ShortRunsDiffer(c, c, u, v);
  }

  /** Burst detection: equal checksums and a difference confined to four bytes mean no difference. */
  lemma BurstDetected(pre: bytes, u: bytes, v: bytes, post: bytes)
    requires |u| == |v| <= 4
    requires Checksum(pre + u + post) == Checksum(pre + v + post)
    ensures u == v
  {
    hide Run;
    ChecksumShowsRegister(pre + u + post, pre + v + post);
    MessageBitsAppend(pre + u, post);
    MessageBitsAppend(pre, u);
    MessageBitsAppend(pre + v, post);
    MessageBitsAppend(pre, v);
    BitBurstDetected(MessageBits(pre), MessageBits(u), MessageBits(v), MessageBits(post));
    MessageBitsInjective(u, v);
  }
}
