/** Well-formed UTF-8 (section 4 of RFC 3629), as `std::str::from_utf8` checks it. */
module Utf8 {
  import opened Bytes

  predicate Tail(b: byte) { 0x80 <= b <= 0xBF }

  predicate Valid(s: bytes) {
    if s == [] then true
    else if s[0] <= 0x7F then Valid(s[1..])
    else if 0xC2 <= s[0] <= 0xDF then |s| >= 2 && Tail(s[1]) && Valid(s[2..])
    else if 0xE0 <= s[0] <= 0xEF then
      && |s| >= 3
      && Tail(s[1]) && (s[0] == 0xE0 ==> 0xA0 <= s[1]) && (s[0] == 0xED ==> s[1] <= 0x9F)
      && Tail(s[2]) && Valid(s[3..])
    else if 0xF0 <= s[0] <= 0xF4 then
      && |s| >= 4
      && Tail(s[1]) && (s[0] == 0xF0 ==> 0x90 <= s[1]) && (s[0] == 0xF4 ==> s[1] <= 0x8F)
      && Tail(s[2]) && Tail(s[3]) && Valid(s[4..])
    else false
  }

  /** The text type: Rust's `String` can hold nothing else. */
  type Text = s: bytes | Valid(s) witness []

  // ---- what the bytes stand for -----------------------------------------------------------

  /** A Unicode scalar value: any code point that is not a surrogate. */
  type Scalar = c: nat | c <= 0xD7FF || 0xE000 <= c <= 0x10FFFF

  /** Section 3 of RFC 3629: the shortest form, six bits a tail byte. */
  function Encode(c: Scalar): (r: bytes)
    ensures r != []
  {
    if c <= 0x7F then [c]
    else if c <= 0x7FF then [0xC0 + c / 0x40, 0x80 + c % 0x40]
    else if c <= 0xFFFF then [0xE0 + c / 0x1000, 0x80 + c / 0x40 % 0x40, 0x80 + c % 0x40]
    else [0xF0 + c / 0x4_0000, 0x80 + c / 0x1000 % 0x40, 0x80 + c / 0x40 % 0x40, 0x80 + c % 0x40]
  }

  function EncodeAll(cs: seq<Scalar>): bytes {
    if cs == [] then [] else Encode(cs[0]) + EncodeAll(cs[1..])
  }

  /** The first scalar of a valid string, and its length in bytes. */
  function First(s: bytes): (r: (Scalar, nat))
    requires Valid(s) && s != []
    ensures 0 < r.1 <= |s| && Encode(r.0) == s[..r.1] && Valid(s[r.1..])
  {
    if s[0] <= 0x7F then
      assert s[..1] == [s[0]];
      (s[0], 1)
    else if s[0] <= 0xDF then
      assert s[..2] == [s[0], s[1]];
      Two(s[0] - 0xC0, s[1] - 0x80)
    else if s[0] <= 0xEF then
      assert s[..3] == [s[0], s[1], s[2]];
      Three(s[0] - 0xE0, s[1] - 0x80, s[2] - 0x80)
    else
      assert s[..4] == [s[0], s[1], s[2], s[3]];
      Four(s[0] - 0xF0, s[1] - 0x80, s[2] - 0x80, s[3] - 0x80)
  }

  function Two(a: nat, b: nat): (r: (Scalar, nat))
    requires 2 <= a < 0x20 && b < 0x40
    ensures r.1 == 2 && Encode(r.0) == [0xC0 + a, 0x80 + b]
  {
    (0x40 * a + b, 2)
  }

  lemma Sixty4(m: nat, d: nat)
    requires d < 0x40
    ensures (0x40 * m + d) / 0x40 == m && (0x40 * m + d) % 0x40 == d
  {
  }

  function Three(a: nat, b: nat, c: nat): (r: (Scalar, nat))
    requires a < 0x10 && b < 0x40 && c < 0x40
    requires (a == 0 ==> 0x20 <= b) && (a == 0xD ==> b < 0x20)
    ensures r.1 == 3 && Encode(r.0) == [0xE0 + a, 0x80 + b, 0x80 + c]
  {
    var n := 0x40 * (0x40 * a + b) + c;
    Sixty4(0x40 * a + b, c);
    Sixty4(a, b);
    assert n / 0x1000 == n / 0x40 / 0x40;
    (n, 3)
  }

  function Four(a: nat, b: nat, c: nat, d: nat): (r: (Scalar, nat))
    requires a <= 4 && b < 0x40 && c < 0x40 && d < 0x40
    requires (a == 0 ==> 0x10 <= b) && (a == 4 ==> b < 0x10)
    ensures r.1 == 4 && Encode(r.0) == [0xF0 + a, 0x80 + b, 0x80 + c, 0x80 + d]
  {
    var front := 0x40 * (0x40 * a + b) + c;
    var n := 0x40 * front + d;
    Sixty4(front, d);
    Sixty4(0x40 * a + b, c);
    Sixty4(a, b);
    assert n / 0x1000 == front / 0x40;
    assert n / 0x4_0000 == front / 0x1000 == (0x40 * a + b) / 0x40;
    (n, 4)
  }

  function Scalars(s: bytes): (cs: seq<Scalar>)
    requires Valid(s)
    ensures EncodeAll(cs) == s
    decreases |s|
  {
    hide Encode, Valid;
    if s == [] then [] else
      var (c, n) := First(s);
      var cs := [c] + Scalars(s[n..]);
      assert cs[1..] == Scalars(s[n..]);
      cs
  }

  lemma EncodedFirst(c: Scalar, rest: bytes)
    requires Valid(rest)
    ensures Valid(Encode(c) + rest)
  {
    var s := Encode(c) + rest;
    assert s[|Encode(c)|..] == rest;
    if 0x800 <= c <= 0xFFFF {
      assert c / 0x1000 == 0 ==> 0x20 <= c / 0x40 % 0x40;
      assert c / 0x1000 == 0xD ==> c / 0x40 % 0x40 < 0x20;
    } else if 0xFFFF < c {
      assert c / 0x4_0000 == 0 ==> 0x10 <= c / 0x1000 % 0x40;
      assert c / 0x4_0000 == 4 ==> c / 0x1000 % 0x40 < 0x10;
    }
  }

  lemma {:induction false} EncodedIsValid(cs: seq<Scalar>)
    ensures Valid(EncodeAll(cs))
  {
    hide Encode;
    if cs != [] {
      EncodedIsValid(cs[1..]);
      EncodedFirst(cs[0], EncodeAll(cs[1..]));
    }
  }

  /** The strings accepted are exactly the encodings of sequences of scalar values. */
  lemma ValidExactly(s: bytes)
    ensures Valid(s) <==> exists cs :: s == EncodeAll(cs)
  {
    if Valid(s) {
      assert s == EncodeAll(Scalars(s));
    }
    if cs :| s == EncodeAll(cs) {
      EncodedIsValid(cs);
    }
  }
}
