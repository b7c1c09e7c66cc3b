/** Bytes and the decimal notation the append-only file uses for counts, lengths,
    database numbers and file sequence numbers. */
module Bytes {
  type byte = x: int | 0 <= x < 256
  type bytes = seq<byte>

  const CR: byte := 13
  const LF: byte := 10
  const CRLF: bytes := [13, 10]

  function Zeros(n: nat): bytes {
    seq(n, _ => 0)
  }

  predicate IsDigit(b: byte) {
    48 <= b <= 57
  }

  /** isspace() in the C locale. */
  predicate IsSpace(b: byte) {
    b == 32 || 9 <= b <= 13
  }

  /** Decimal digits of `n`, most significant first (ll2string on a non-negative value). */
  function Digits(n: nat): (r: bytes)
    ensures |r| >= 1
    ensures forall i :: 0 <= i < |r| ==> IsDigit(r[i])
    ensures n > 0 ==> r[0] != 48
  {
    if n < 10 then [48 + n] else Digits(n / 10) + [48 + n % 10]
  }

  /** Accumulates the leading decimal digits of `s` on top of `acc`. */
  function DigitsValue(s: bytes, acc: nat): nat {
    if s == [] || !IsDigit(s[0]) then acc else DigitsValue(s[1..], acc * 10 + s[0] - 48)
  }

  function SkipSpaces(s: bytes): bytes {
    if s != [] && IsSpace(s[0]) then SkipSpaces(s[1..]) else s
  }

  /** atoi(), atoll() and strtol(.., NULL, 10) on values that fit the C type. */
  function ParseInt(s: bytes): int {
    var t := SkipSpaces(s);
    if t != [] && t[0] == 45 then -(DigitsValue(t[1..], 0) as int)
    else if t != [] && t[0] == 43 then DigitsValue(t[1..], 0)
    else DigitsValue(t, 0)
  }

  /** Reading back printed digits continues with the printed number as accumulator. */
  lemma {:induction false} DigitsValueOfDigits(n: nat, rest: bytes)
    ensures DigitsValue(Digits(n) + rest, 0) == DigitsValue(rest, n)
  {
    if n < 10 {
      assert ([48 + n] + rest)[1..] == rest;
    } else {
      var d: byte := 48 + n % 10;
      assert Digits(n) + rest == Digits(n / 10) + ([d] + rest);
      DigitsValueOfDigits(n / 10, [d] + rest);
      assert ([d] + rest)[1..] == rest;
    }
  }

  /** Decimal round trip: the reader stops at the first non-digit and returns what was printed. */
  lemma {:induction false} ParseIntOfDigits(n: nat, rest: bytes)
    requires rest == [] || !IsDigit(rest[0])
    ensures ParseInt(Digits(n) + rest) == n
  {
    var s := Digits(n) + rest;
    assert s[0] == Digits(n)[0];
    DigitsValueOfDigits(n, rest);
  }

  lemma {:induction false} DigitsValueAtLeast(s: bytes, acc: nat)
    ensures DigitsValue(s, acc) >= acc
  {
    if s != [] && IsDigit(s[0]) {
      DigitsValueAtLeast(s[1..], acc * 10 + s[0] - 48);
    }
  }

  /** A printed number cut short still reads as a positive number unless nothing is left of it. */
  lemma {:induction false} ParseIntOfCutDigits(n: nat, tail: bytes, k: nat)
    requires n > 0 && 0 < k <= |Digits(n)| + |tail|
    ensures ParseInt((Digits(n) + tail)[..k]) > 0
  {
    var s := (Digits(n) + tail)[..k];
    assert s[0] == Digits(n)[0] && IsDigit(s[0]) && s[0] != 48;
    DigitsValueAtLeast(s[1..], s[0] - 48);
  }

  function Pow10(k: nat): nat {
    if k == 0 then 1 else 10 * Pow10(k - 1)
  }

  lemma {:induction false} DigitsLength(n: nat, k: nat)
    requires k >= 1 && n < Pow10(k)
    ensures |Digits(n)| <= k
  {
    if n >= 10 {
      DigitsLength(n / 10, k - 1);
    }
  }

  /** Distinct numbers print differently. */
  lemma {:induction false} DigitsInjective(m: nat, n: nat)
    requires Digits(m) == Digits(n)
    ensures m == n
  {
    ParseIntOfDigits(m, []);
    ParseIntOfDigits(n, []);
  }
}
