/** Bytes, the ASCII bytes the bencoding grammar is made of, and two helpers on byte
    sequences that the Go standard library provides (bytes.IndexByte, strings.HasPrefix). */
module Ascii {
  import opened Wrappers

  type byte = b: int | 0 <= b < 256

  const I: byte := 'i' as int
  const E: byte := 'e' as int
  const L: byte := 'l' as int
  const D: byte := 'd' as int
  const COLON: byte := ':' as int
  const MINUS: byte := '-' as int
  const PLUS: byte := '+' as int
  const ZERO: byte := '0' as int
  const NINE: byte := '9' as int

  /** The test `c >= 48 && c <= 57` of the source. */
  predicate IsDigit(b: byte) {
    ZERO <= b <= NINE
  }

  /** bytes.IndexByte: the index of the first occurrence of `b` in `s`, if any. That it is
      the first is lemma IndexOfFirst. */
  function IndexOf(s: seq<byte>, b: byte): (r: Option<nat>)
    ensures r.Some? ==> r.value < |s| && s[r.value] == b
  {
    IndexFrom(s, b, 0)
  }

  /** The first occurrence of `b` at or after index `i`. */
  function IndexFrom(s: seq<byte>, b: byte, i: nat): (r: Option<nat>)
    requires i <= |s|
    ensures r.Some? ==> i <= r.value < |s| && s[r.value] == b
    decreases |s| - i
  {
    if i == |s| then None
    else if s[i] == b then Some(i)
    else IndexFrom(s, b, i + 1)
  }

  lemma {:induction false} IndexFromFirst(s: seq<byte>, b: byte, i: nat)
    requires i <= |s|
    ensures match IndexFrom(s, b, i)
      case Some(j) => forall k :: i <= k < j ==> s[k] != b
      case None => forall k :: i <= k < |s| ==> s[k] != b
    decreases |s| - i
  {
    if i < |s| && s[i] != b {
      IndexFromFirst(s, b, i + 1);
    }
  }

  /** The scan from `i` stops at the first `b` it meets. */
  lemma {:induction false} IndexFromAt(s: seq<byte>, b: byte, i: nat, j: nat)
    requires i <= j < |s| && s[j] == b
    requires forall k :: i <= k < j ==> s[k] != b
    ensures IndexFrom(s, b, i) == Some(j)
    decreases j - i
  {
    if i < j {
      IndexFromAt(s, b, i + 1, j);
    }
  }

  /** IndexOf finds the first occurrence, and finds none only when `b` does not occur. */
  lemma IndexOfFirst(s: seq<byte>, b: byte)
    ensures match IndexOf(s, b)
      case Some(j) => forall k :: 0 <= k < j ==> s[k] != b
      case None => forall k :: 0 <= k < |s| ==> s[k] != b
  {
    IndexFromFirst(s, b, 0);
  }

  predicate HasPrefix(s: seq<byte>, p: seq<byte>) {
    |p| <= |s| && s[..|p|] == p
  }

  /** The first occurrence is determined by where `b` first appears. */
  lemma IndexOfAfter(prefix: seq<byte>, b: byte, suffix: seq<byte>)
    requires b !in prefix
    ensures IndexOf(prefix + [b] + suffix, b) == Some(|prefix|)
  {
    var s := prefix + [b] + suffix;
    forall k | 0 <= k < |prefix| ensures s[k] != b {
      assert s[k] == prefix[k];
    }
    IndexFromAt(s, b, 0, |prefix|);
  }
}
