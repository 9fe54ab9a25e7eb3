/** What the productions of module Grammar accept and reject, stated over whole inputs. */
module DecoderFacts {
  import opened Wrappers
  import opened Ascii
  import opened Decimal
  import opened Bencode
  import opened Grammar

  /** An integer body ParseInt accepts: the one decimal spelling of a value that fits in an
      `int`. */
  predicate IntLiteral(body: seq<byte>) {
    IsCanonicalInt(body) && INT_MIN <= LiteralValue(body) <= INT_MAX
  }

  /** A canonical literal is made of digits and at most a leading `-`. */
  lemma CanonicalIntBytes(body: seq<byte>)
    requires IsCanonicalInt(body)
    ensures forall k :: 0 <= k < |body| ==> IsIntByte(body[k])
  {
    if body[0] == MINUS {
      forall k | 1 <= k < |body| ensures IsDigit(body[k]) {
        assert body[k] == body[1..][k - 1];
      }
    }
  }

  /** The scan of ParseInt from index `i` reaches the first `e` at `j` exactly when every byte
      before it is a digit or `-`. */
  lemma {:induction false} IntBodyEndScan(s: seq<byte>, i: nat, j: nat)
    requires i <= j < |s| && s[j] == E
    requires forall k :: i <= k < j ==> s[k] != E
    ensures IntBodyEnd(s, i) == if forall k :: i <= k < j ==> IsIntByte(s[k]) then Some(j) else None
    decreases j - i
  {
    if i < j {
      IntBodyEndScan(s, i + 1, j);
    }
  }

  /** The checks after the scan accept exactly the canonical literals that fit in an `int`:
      the leading-zero check and the `-0` check reject the non-canonical spellings Atoi
      would let through, and Atoi rejects the rest (an empty body, a lone `-`, a `-` after
      the first byte). */
  lemma IntBodyValueCanonical(body: seq<byte>)
    requires forall k :: 0 <= k < |body| ==> IsIntByte(body[k])
    ensures IntBodyValue(body) == if IntLiteral(body) then Some(LiteralValue(body)) else None
  {
    AtoiValue(body);
    if HasPrefix(body, [ZERO]) && |body| > 1 {
      assert body[0] == [ZERO][0];
    } else if HasPrefix(body, [MINUS, ZERO]) {
      assert body[1] == [MINUS, ZERO][1];
    } else if |body| > 0 && body[0] == MINUS {
      if |body| > 1 {
        assert body[..2] == [MINUS, body[1]];
        assert body[1..][0] == body[1];
      }
    } else if |body| > 0 {
      assert body[..1] == [body[0]];
    }
  }

  /** ParseInt on `i`, a body without `e`, and `e`: it succeeds exactly when the body matches
      `-?(0|[1-9][0-9]*)` and its value fits in an `int`, returns that value and leaves the
      bytes after the `e`. Every other body (a byte outside `0-9` and `-`, a leading zero,
      `-0`, an empty body, a misplaced sign, an out-of-range value) is rejected. */
  lemma DecodeIntExactly(body: seq<byte>, rest: seq<byte>)
    requires E !in body
    ensures DecodeInt([I] + body + [E] + rest) ==
      if IntLiteral(body) then Parsed(LiteralValue(body), rest) else Fail
  {
    var s := [I] + body + [E] + rest;
    var j := 1 + |body|;
    assert forall k :: 1 <= k < j ==> s[k] == body[k - 1];
    assert s[j] == E;
    IntBodyEndScan(s, 1, j);
    assert s[1..j] == body;
    assert s[j + 1..] == rest;
    if forall k :: 1 <= k < j ==> IsIntByte(s[k]) {
      IntBodyValueCanonical(body);
    } else {
      if IsCanonicalInt(body) {
        CanonicalIntBytes(body);
      }
    }
  }

  /** ParseInt fails when the input ends before any `e`. */
  lemma DecodeIntUnterminated(body: seq<byte>)
    requires E !in body
    ensures DecodeInt([I] + body).Fail?
  {
    var s := [I] + body;
    assert forall k :: 1 <= k < |s| ==> s[k] == body[k - 1];
  }

  /** ParseByteString on a prefix without `:`, then `:`, then the rest: the prefix must be a
      number Atoi accepts (so leading zeros and a sign are allowed) and strictly positive,
      and that many bytes must follow; the result is exactly those bytes. */
  lemma DecodeByteStringExactly(prefix: seq<byte>, rest: seq<byte>)
    requires COLON !in prefix
    ensures DecodeByteString(prefix + [COLON] + rest) ==
      match Atoi(prefix)
      case Some(n) => if 0 < n <= |rest| then Parsed(rest[..n], rest[n..]) else Fail
      case None => Fail
  {
    var s := prefix + [COLON] + rest;
    IndexOfAfter(prefix, COLON, rest);
    assert s[..|prefix|] == prefix;
    assert s[|prefix| + 1..] == rest;
    if Atoi(prefix).Some? {
      var n := Atoi(prefix).value;
      ByteStringUnfold(s, |prefix|, n);
      if 0 < n <= |rest| {
        SplitAfter(s, |prefix| + 1, n);
      }
    }
  }

  /** A declared length of zero is rejected: `0:` is not a byte string. */
  lemma ZeroLengthRejected(rest: seq<byte>)
    ensures DecodeByteString([ZERO, COLON] + rest) == Fail
  {
    DecodeByteStringExactly([ZERO], rest);
    AtoiValue([ZERO]);
    assert [ZERO, COLON] + rest == [ZERO] + [COLON] + rest;
    assert DigitsValue([ZERO]) == DigitsValue([]) * 10 + 0;
  }

  /** Parse dispatches on the first byte: what kind of value it returns is determined by it,
      and a byte other than `i`, a digit, `l` or `d`, or the end of the input, is an error. */
  lemma DecodeValueDispatch(s: seq<byte>)
    ensures (|s| == 0 || (s[0] != I && !IsDigit(s[0]) && s[0] != L && s[0] != D)) ==>
      DecodeValue(s) == Fail
    ensures DecodeValue(s).Parsed? ==>
      var v := DecodeValue(s).value;
      && (v.Int? <==> s[0] == I)
      && (v.Str? <==> IsDigit(s[0]))
      && (v.List? <==> s[0] == L)
      && (v.Dict? <==> s[0] == D)
      && !v.Other?
  {
  }

  /** `le` is not a list: at least one child is parsed before the first look for `e`. */
  lemma EmptyListRejected(rest: seq<byte>)
    ensures DecodeList([L, E] + rest) == Fail
  {
    assert ([L, E] + rest)[1..] == [E] + rest;
    DecodeValueDispatch([E] + rest);
  }

  /** `de` is not a dictionary: the first thing after `d` must be a byte-string key. */
  lemma EmptyDictRejected(rest: seq<byte>)
    ensures DecodeDict([D, E] + rest) == Fail
  {
    var t := [E] + rest;
    assert ([D, E] + rest)[1..] == t;
    match IndexOf(t, COLON)
    case None =>
    case Some(j) =>
      AtoiValue(t[..j]);
      assert t[..j][0] == E;
  }

  /** Every value the decoder produces is Decodable: no byte string, list or dictionary it
      returns is empty, and every length fits in an `int`. */
  lemma {:induction false} DecodedIsDecodable(s: seq<byte>)
    requires DecodeValue(s).Parsed?
    ensures Decodable(DecodeValue(s).value)
    decreases |s|, 2
  {
    if s[0] == L {
      ItemsDecodable(s[1..], []);
    } else if s[0] == D {
      EntriesDecodable(s[1..], map[]);
    }
  }

  lemma {:induction false} ItemsDecodable(t: seq<byte>, acc: seq<Value>)
    requires forall i :: 0 <= i < |acc| ==> Decodable(acc[i])
    requires DecodeListItems(t, acc).Parsed?
    ensures var items := DecodeListItems(t, acc).value;
      |items| > 0 && forall i :: 0 <= i < |items| ==> Decodable(items[i])
    decreases |t|, 3
  {
    var d := DecodeValue(t);
    DecodedIsDecodable(t);
    var acc' := acc + [d.value];
    assert forall i :: 0 <= i < |acc'| ==> Decodable(acc'[i]) by {
      forall i | 0 <= i < |acc'| ensures Decodable(acc'[i]) {
        if i < |acc| {
          assert acc'[i] == acc[i];
        }
      }
    }
    if d.rest[0] != E {
      ItemsDecodable(d.rest, acc');
    }
  }

  lemma {:induction false} EntriesDecodable(t: seq<byte>, acc: map<seq<byte>, Value>)
    requires forall k :: k in acc ==> 0 < |k| <= INT_MAX && Decodable(acc[k])
    requires DecodeDictEntries(t, acc).Parsed?
    ensures var d := DecodeDictEntries(t, acc).value;
      |d| > 0 && forall k :: k in d ==> 0 < |k| <= INT_MAX && Decodable(d[k])
    decreases |t|, 3
  {
    var key := DecodeByteString(t);
    var v := DecodeValue(key.rest);
    DecodedIsDecodable(key.rest);
    var acc' := acc[key.value := v.value];
    assert forall k :: k in acc' ==> 0 < |k| <= INT_MAX && Decodable(acc'[k]) by {
      forall k | k in acc' ensures 0 < |k| <= INT_MAX && Decodable(acc'[k]) {
        if k != key.value {
          assert acc'[k] == acc[k];
        }
      }
    }
    DictLoopStep(t, acc, key.value, key.rest, v.value, v.rest);
    if v.rest[0] != E {
      EntriesDecodable(v.rest, acc');
    } else {
      assert key.value in acc';
    }
  }
}
