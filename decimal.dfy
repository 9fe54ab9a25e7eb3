/** Decimal text of integers: what the source takes from strconv.Atoi, strconv.Itoa and
    fmt's `%v` of an int, on a platform where Go's `int` is 64 bits wide. */
module Decimal {
  import opened Wrappers
  import opened Ascii

  const INT_MIN: int := -0x8000_0000_0000_0000
  const INT_MAX: int := 0x7FFF_FFFF_FFFF_FFFF

  /** Go's `int`. */
  type Int64 = x: int | INT_MIN <= x <= INT_MAX

  predicate AllDigits(s: seq<byte>) {
    forall i :: 0 <= i < |s| ==> IsDigit(s[i])
  }

  /** The value of a run of ASCII digits, most significant digit first. */
  function DigitsValue(s: seq<byte>): nat
    requires AllDigits(s)
  {
    if s == [] then 0 else DigitsValue(s[..|s| - 1]) * 10 + (s[|s| - 1] - ZERO)
  }

  /** `0|[1-9][0-9]*`: a natural number with no leading zero. */
  predicate IsCanonicalNat(s: seq<byte>) {
    |s| > 0 && AllDigits(s) && (s[0] == ZERO ==> |s| == 1)
  }

  /** `-?(0|[1-9][0-9]*)` without `-0`: the one decimal spelling of each integer. */
  predicate IsCanonicalInt(s: seq<byte>) {
    || IsCanonicalNat(s)
    || (|s| > 1 && s[0] == MINUS && s[1] != ZERO && IsCanonicalNat(s[1..]))
  }

  function LiteralValue(s: seq<byte>): int
    requires IsCanonicalInt(s)
  {
    if s[0] == MINUS then -(DigitsValue(s[1..]) as int) else DigitsValue(s)
  }

  /** strconv.Atoi: an optional `+` or `-`, then one or more ASCII digits (leading zeros
      allowed), whose value must fit in an `int`. */
  function Atoi(s: seq<byte>): (r: Option<Int64>)
    ensures r.Some? ==> |s| > 0 && (r.value < 0 ==> s[0] == MINUS)
  {
    var signed := |s| > 0 && (s[0] == PLUS || s[0] == MINUS);
    var digits := if signed then s[1..] else s;
    if |digits| == 0 then None
    else match ScanDigits(digits)
      case None => None
      case Some(magnitude) =>
        var v: int := if signed && s[0] == MINUS then -(magnitude as int) else magnitude;
        if INT_MIN <= v <= INT_MAX then Some(v) else None
  }

  /** The digit loop inside strconv.Atoi: the value of `s`, or `None` at a byte that is not
      a digit. */
  function ScanDigits(s: seq<byte>): Option<nat> {
    if s == [] then Some(0)
    else match ScanDigits(s[..|s| - 1])
      case None => None
      case Some(v) => if IsDigit(s[|s| - 1]) then Some(v * 10 + (s[|s| - 1] - ZERO)) else None
  }

  /** ScanDigits succeeds exactly on runs of digits, with their value. */
  lemma {:induction false} ScanDigitsValue(s: seq<byte>)
    ensures ScanDigits(s) == if AllDigits(s) then Some(DigitsValue(s)) else None
  {
    if s != [] {
      var p := s[..|s| - 1];
      ScanDigitsValue(p);
      assert forall i :: 0 <= i < |p| ==> p[i] == s[i];
    }
  }

  /** Atoi in terms of AllDigits and DigitsValue. */
  lemma AtoiValue(s: seq<byte>)
    ensures Atoi(s) ==
      var signed := |s| > 0 && (s[0] == PLUS || s[0] == MINUS);
      var digits := if signed then s[1..] else s;
      if |digits| == 0 || !AllDigits(digits) then None
      else
        var magnitude := DigitsValue(digits);
        var v: int := if signed && s[0] == MINUS then -(magnitude as int) else magnitude;
        if INT_MIN <= v <= INT_MAX then Some(v) else None
  {
    if |s| > 0 && (s[0] == PLUS || s[0] == MINUS) {
      ScanDigitsValue(s[1..]);
    } else {
      ScanDigitsValue(s);
    }
  }

  /** The decimal digits of `n`, as `%v` and strconv.Itoa print a non-negative int. */
  function NatDigits(n: nat): (r: seq<byte>)
    ensures IsCanonicalNat(r) && DigitsValue(r) == n
    ensures forall i :: 0 <= i < |r| ==> IsDigit(r[i])
  {
    if n < 10 then [ZERO + n]
    else
      var prefix := NatDigits(n / 10);
      var r := prefix + [ZERO + n % 10];
      assert r[..|r| - 1] == prefix;
      r
  }

  /** strconv.Itoa. */
  function Itoa(i: int): (r: seq<byte>)
    ensures IsCanonicalInt(r) && LiteralValue(r) == i
    ensures (r[0] == MINUS) <==> i < 0
  {
    if i < 0 then
      var digits := NatDigits(-i);
      var r := [MINUS] + digits;
      assert r[1..] == digits;
      r
    else NatDigits(i)
  }

  /** Atoi reads a canonical literal back as its value, exactly when that value fits. */
  lemma AtoiOfCanonical(s: seq<byte>)
    requires IsCanonicalInt(s)
    ensures Atoi(s) == if INT_MIN <= LiteralValue(s) <= INT_MAX then Some(LiteralValue(s)) else None
  {
    AtoiValue(s);
  }

  /** Atoi inverts Itoa on every `int`. */
  lemma AtoiItoa(i: Int64)
    ensures Atoi(Itoa(i)) == Some(i)
  {
    AtoiOfCanonical(Itoa(i));
  }

  /** Atoi inverts the unsigned decimal text of every length an `int` can hold. */
  lemma AtoiNatDigits(n: nat)
    requires n <= INT_MAX
    ensures Atoi(NatDigits(n)) == Some(n)
  {
    AtoiOfCanonical(NatDigits(n));
  }
}
