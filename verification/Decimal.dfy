/** Decimal text as Rust prints unsigned integers, and as `str::parse` reads them. */
module Decimal {
  import opened Bytes
  import opened Resp3

  predicate IsDigit(c: nat) { 48 <= c <= 57 }

  predicate AllDigits(s: Text) { forall i :: 0 <= i < |s| ==> IsDigit(s[i]) }

  function Print(n: nat): (r: bytes)
    ensures r != [] && AllDigits(r)
  {
    if n < 10 then [48 + n] else Print(n / 10) + [48 + n % 10]
  }

  function Value(s: Text): nat
    requires AllDigits(s)
  {
    if s == [] then 0 else 10 * Value(s[..|s| - 1]) + (s[|s| - 1] - 48)
  }

  /** `parse` takes one leading plus sign, wants at least one digit, and refuses to overflow. */
  function Parse(s: Text, limit: nat): (r: Option<nat>)
    ensures r.Some? ==> r.value < limit
  {
    var digits := if s != [] && s[0] == 43 then s[1..] else s;
    if digits == [] || !AllDigits(digits) || limit <= Value(digits) then None else Some(Value(digits))
  }

  lemma {:induction false} ValueOfPrint(n: nat)
    ensures Value(Print(n)) == n
  {
    if n >= 10 {
      var r := Print(n);
      assert r[..|r| - 1] == Print(n / 10);
      ValueOfPrint(n / 10);
    } else {
      assert Print(n)[..0] == [];
    }
  }

  lemma ParsePrinted(n: nat, limit: nat)
    ensures Parse(Print(n), limit) == if n < limit then Some(n) else None
  {
    ValueOfPrint(n);
    assert IsDigit(Print(n)[0]);
  }

  lemma PrintInjective(m: nat, n: nat)
    requires Print(m) == Print(n)
    ensures m == n
  {
    ValueOfPrint(m);
    ValueOfPrint(n);
  }

  /** Digits only, and no zero in front of others: the one way to write a number. */
  predicate Canonical(s: Text) {
    s != [] && AllDigits(s) && (s[0] == 48 ==> |s| == 1)
  }

  lemma {:induction false} PrintIsCanonical(n: nat)
    ensures Canonical(Print(n)) && Value(Print(n)) == n && (0 < n ==> Print(n)[0] != 48)
  {
    ValueOfPrint(n);
    if n >= 10 {
      PrintIsCanonical(n / 10);
    }
  }

  lemma {:induction false} CanonicalIsPrint(s: Text)
    requires Canonical(s)
    ensures s == Print(Value(s))
    decreases |s|
  {
    var front, last := s[..|s| - 1], s[|s| - 1];
    assert s == front + [last];
    if front == [] {
      assert Value(front) == 0;
    } else {
      CanonicalIsPrint(front);
      PositiveFront(front);
    }
  }

  lemma {:induction false} PositiveFront(s: Text)
    requires s != [] && AllDigits(s) && s[0] != 48
    ensures 1 <= Value(s)
  {
    var front := s[..|s| - 1];
    if front == [] {
      assert Value(front) == 0;
    } else {
      PositiveFront(front);
    }
  }

  /** A text is parsed exactly when, after one plus sign at most, it is digits of a number below the limit. */
  lemma ParsesExactly(s: Text, limit: nat, n: nat)
    ensures Parse(s, limit) == Some(n) <==>
            exists digits: Text :: digits != [] && AllDigits(digits) && (s == digits || s == [43] + digits)
                                   && Value(digits) == n && n < limit
  {
    if s != [] && s[0] == 43 {
      assert s == [43] + s[1..];
      assert forall digits: Text :: s == [43] + digits ==> digits == s[1..];
      assert !AllDigits(s) by { assert !IsDigit(s[0]); }
    } else {
      assert forall digits: Text :: s == [43] + digits ==> s[0] == 43;
    }
  }

  lemma KnownNumbers()
    ensures Print(1207) == [49, 50, 48, 55] && Print(0) == [48]
    ensures Parse([43, 52, 50], 100) == Some(42) && Parse([45, 49], 100) == None
  {
    assert Print(1) == [49] && Print(12) == [49, 50] && Print(120) == [49, 50, 48];
    var digits: Text := [52, 50];
    assert digits[..1] == [52] && digits[..1][..0] == [];
    assert Value([52]) == 10 * Value([]) + 4;
    assert Value(digits) == 42;
    assert [43, 52, 50][1..] == digits;
    assert !IsDigit([45, 49][0]);
  }
}
