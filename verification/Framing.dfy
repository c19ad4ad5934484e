/**
 Requests on the wire: an array of bulk strings, each preceded by its length in decimal.

 A server that counts bytes cannot tell where a half-written request stops.  It takes the bytes of
 the next request for the missing ones.
 */
module Framing {
  import opened Bytes
  import Decimal

  const CRLF: bytes := [13, 10]
  const SET: bytes := [83, 69, 84]
  /** `*4`, the first bytes of every request of four parts. */
  const STAR_FOUR: bytes := [42, 52]

  function Part(a: bytes): bytes { [36] + Decimal.Print(|a|) + CRLF + a + CRLF }

  function Parts(args: seq<bytes>): bytes {
    if args == [] then [] else Part(args[0]) + Parts(args[1..])
  }

  function RequestText(args: seq<bytes>): bytes { [42] + Decimal.Print(|args|) + CRLF + Parts(args) }

  lemma KnownParts()
    ensures Part([71, 69, 84]) == [36, 51, 13, 10, 71, 69, 84, 13, 10]
    ensures Part([107]) == [36, 49, 13, 10, 107, 13, 10]
    ensures Decimal.Print(2) == [50]
  {
    assert Decimal.Print(1) == [49] && Decimal.Print(3) == [51];
  }

  /** `*2 $3 GET $1 k`, each part on its line. */
  lemma KnownRequest()
    ensures RequestText([[71, 69, 84], [107]]) ==
            [42, 50, 13, 10] + [36, 51, 13, 10, 71, 69, 84, 13, 10] + [36, 49, 13, 10, 107, 13, 10]
  {
    hide Decimal.Print, Part;
    var args: seq<bytes> := [[71, 69, 84], [107]];
    KnownParts();
    assert args[1..] == [args[1]] && args[1..][1..] == [];
    assert Parts(args[1..]) == Part(args[1]) + [];
    assert Parts(args) == Part(args[0]) + Part(args[1]);
    assert [42] + [50] + CRLF == [42, 50, 13, 10];
  }

  // ---- whole requests are read back -------------------------------------------------------

  /** Where the digits end, the number ends. */
  lemma NumberEnds(m: nat, n: nat, x: bytes, y: bytes)
    requires Decimal.Print(m) + CRLF + x == Decimal.Print(n) + CRLF + y
    ensures m == n && x == y
  {
    hide Decimal.Print;
    var a, b := Decimal.Print(m), Decimal.Print(n);
    var s := a + CRLF + x;
    assert s[|a|] == 13 && s[|b|] == 13;
    assert forall i :: 0 <= i < |a| ==> s[i] == a[i] && Decimal.IsDigit(a[i]);
    assert forall i :: 0 <= i < |b| ==> s[i] == b[i] && Decimal.IsDigit(b[i]);
    assert |a| == |b|;
    assert a == s[..|a|] == b;
    assert x == s[|a| + 2..] == y;
    Decimal.PrintInjective(m, n);
  }

  lemma PartEnds(a: bytes, b: bytes, x: bytes, y: bytes)
    requires Part(a) + x == Part(b) + y
    ensures a == b && x == y
  {
    hide Decimal.Print;
    var s := Part(a) + x;
    assert s[1..] == Decimal.Print(|a|) + CRLF + (a + CRLF + x);
    assert s[1..] == Decimal.Print(|b|) + CRLF + (b + CRLF + y);
    NumberEnds(|a|, |b|, a + CRLF + x, b + CRLF + y);
    var t := a + CRLF + x;
    assert a == t[..|a|] == b;
    assert x == t[|a| + 2..] == y;
  }

  lemma {:induction false} PartsEnd(a: seq<bytes>, b: seq<bytes>, x: bytes, y: bytes)
    requires |a| == |b| && Parts(a) + x == Parts(b) + y
    ensures a == b && x == y
  {
    hide Part;
    if a != [] {
      assert Parts(a) + x == Part(a[0]) + (Parts(a[1..]) + x);
      assert Parts(b) + y == Part(b[0]) + (Parts(b[1..]) + y);
      PartEnds(a[0], b[0], Parts(a[1..]) + x, Parts(b[1..]) + y);
      PartsEnd(a[1..], b[1..], x, y);
    } else {
      assert x == Parts(a) + x && y == Parts(b) + y;
    }
  }

  /** A stream begins with one request only, and what follows it is determined too. */
  lemma RequestsUnambiguous(a: seq<bytes>, b: seq<bytes>, x: bytes, y: bytes)
    requires RequestText(a) + x == RequestText(b) + y
    ensures a == b && x == y
  {
    hide Decimal.Print, Parts;
    var s := RequestText(a) + x;
    assert s[1..] == Decimal.Print(|a|) + CRLF + (Parts(a) + x);
    assert s[1..] == Decimal.Print(|b|) + CRLF + (Parts(b) + y);
    NumberEnds(|a|, |b|, Parts(a) + x, Parts(b) + y);
    PartsEnd(a, b, x, y);
  }

  // ---- half a request ---------------------------------------------------------------------

  /** The value that a SET short of its last four bytes stores once another request follows it. */
  function Damaged(value: bytes): bytes
    requires 2 <= |value|
  {
    value[..|value| - 2] + STAR_FOUR
  }

  /** A SET short of its last four bytes. */
  function TornSet(key: bytes, value: bytes): bytes
    requires 2 <= |value|
  {
    var whole := RequestText([SET, key, value]);
    whole[..|whole| - 4]
  }

  lemma TornIsPart(key: bytes, value: bytes)
    requires 2 <= |value|
    ensures TornSet(key, value) < RequestText([SET, key, value])
  {
    SetText(key, value);
    hide RequestText;
    var whole := RequestText([SET, key, value]);
    assert TornSet(key, value) == whole[..|whole| - 4];
  }

  lemma SetParts(key: bytes, value: bytes)
    ensures RequestText([SET, key, value]) == [42, 51] + CRLF + (Part(SET) + Part(key)) + Part(value)
  {
    hide Decimal.Print, Part;
    Three();
    var args := [SET, key, value];
    assert args[1..] == [key, value] && [key, value][1..] == [value];
    assert Parts([value]) == Part(value) + Parts([value][1..]);
    assert Parts([key, value]) == Part(key) + Parts([value]);
    assert Parts(args) == Part(SET) + Parts([key, value]);
    assert [42] + Decimal.Print(3) == [42, 51];
  }

  lemma SetText(key: bytes, value: bytes)
    ensures RequestText([SET, key, value]) ==
            [42, 51] + CRLF + (Part(SET) + Part(key)) + [36] + Decimal.Print(|value|) + CRLF + value + CRLF
  {
    SetParts(key, value);
    hide Decimal.Print, RequestText, Parts;
    var head := [42, 51] + CRLF + (Part(SET) + Part(key));
    Associate(head, [36], Decimal.Print(|value|), CRLF, value);
  }

  lemma Associate(head: bytes, a: bytes, b: bytes, c: bytes, d: bytes)
    ensures head + (a + b + c + d + c) == head + a + b + c + d + c
  {
  }

  lemma Three()
    ensures Decimal.Print(3) == [51] && Decimal.Print(4) == [52]
  {
  }

  /**
   A SET loses its last four bytes, and a request of four parts follows on the connection.  To the
   server the stream begins with a whole SET, of the damaged value, and can begin with nothing else.
   */
  lemma TornSetCompleted(key: bytes, value: bytes, next: seq<bytes>)
    requires 2 <= |value| && |next| == 4
    ensures var stream := TornSet(key, value) + RequestText(next);
            && RequestText([SET, key, Damaged(value)]) <= stream
            && forall read, rest :: stream == RequestText(read) + rest ==> read == [SET, key, Damaged(value)]
  {
    hide Parts, Part, Decimal.Print;
    var front := [42, 51] + CRLF + (Part(SET) + Part(key)) + [36] + Decimal.Print(|value|) + CRLF;
    SetText(key, value);
    SetText(key, Damaged(value));
    Three();
    var tail := Parts(next);
    assert RequestText(next) == STAR_FOUR + CRLF + tail;
    assert TornSet(key, value) == front + value[..|value| - 2];
    var stream := TornSet(key, value) + RequestText(next);
    var stored := [SET, key, Damaged(value)];
    assert stream == RequestText(stored) + tail;
    forall read, rest | stream == RequestText(read) + rest
      ensures read == stored
    {
      RequestsUnambiguous(read, stored, rest, tail);
    }
  }
}
