/** The inputs of bencode_test.go, stated on the model: what the grammar makes of each, and
    what the draft's DecodeStream returns on a reader holding it. */
module Scenarios {
  import opened Wrappers
  import opened Ascii
  import opened Decimal
  import opened Bencode
  import opened Grammar
  import opened DecoderFacts
  import opened ByteReader
  import Draft
  import Encoder
  import RoundTrip
  import Parser

  const TWO: byte := '2' as int
  const FIVE: byte := '5' as int
  const LOWER_A: byte := 'a' as int
  const LOWER_B: byte := 'b' as int

  /** `i--0e` is rejected: a doubled sign is not an integer literal. */
  lemma DoubledSignRejected()
    ensures DecodeInt([I, MINUS, MINUS, ZERO, E]) == Fail
  {
    assert [I, MINUS, MINUS, ZERO, E] == [I] + [MINUS, MINUS, ZERO] + [E] + [];
    DecodeIntExactly([MINUS, MINUS, ZERO], []);
  }

  /** `2:ab` is the byte string `ab`, and so is the `2:ab` at the head of a longer input. */
  lemma TwoByteString(rest: seq<byte>)
    ensures DecodeByteString([TWO, COLON, LOWER_A, LOWER_B] + rest) == Parsed([LOWER_A, LOWER_B], rest)
  {
    assert [TWO, COLON, LOWER_A, LOWER_B] + rest == [TWO] + [COLON] + ([LOWER_A, LOWER_B] + rest);
    AtoiValue([TWO]);
    DecodeByteStringExactly([TWO], [LOWER_A, LOWER_B] + rest);
    assert ([LOWER_A, LOWER_B] + rest)[..2] == [LOWER_A, LOWER_B];
    assert ([LOWER_A, LOWER_B] + rest)[2..] == rest;
  }

  /** Decoding then encoding is not the identity: `02:ab` decodes to the byte string `ab`,
      which encodes as `2:ab`. */
  lemma LeadingZeroLengthNotReencoded()
    ensures DecodeValue([ZERO, TWO, COLON, LOWER_A, LOWER_B]) == Parsed(Str([LOWER_A, LOWER_B]), [])
    ensures Encoder.Encoding(Str([LOWER_A, LOWER_B])) == Ok([TWO, COLON, LOWER_A, LOWER_B])
  {
    var s := [ZERO, TWO, COLON, LOWER_A, LOWER_B];
    assert s == [ZERO, TWO] + [COLON] + [LOWER_A, LOWER_B];
    AtoiValue([ZERO, TWO]);
    assert DigitsValue([ZERO, TWO]) == 2 by {
      assert [ZERO, TWO][..1] == [ZERO] && [ZERO][..0] == [];
      assert DigitsValue([ZERO]) == DigitsValue([]) * 10 + (ZERO - ZERO);
      assert DigitsValue([ZERO, TWO]) == DigitsValue([ZERO]) * 10 + (TWO - ZERO);
    }
    DecodeByteStringExactly([ZERO, TWO], [LOWER_A, LOWER_B]);
    assert [LOWER_A, LOWER_B][..2] == [LOWER_A, LOWER_B] && [LOWER_A, LOWER_B][2..] == [];
    var ab := [LOWER_A, LOWER_B];
    assert |ab| == 2 && NatDigits(2) == [TWO];
    assert Encoder.EncodeString(ab) == [TWO] + [COLON] + ab == [TWO, COLON, LOWER_A, LOWER_B];
    assert Encoder.Encoding(Str(ab)) == Ok(Encoder.EncodeString(ab));
  }

  /** `i5e` followed by more input is the integer 5. */
  lemma Five(rest: seq<byte>)
    ensures DecodeInt([I, FIVE, E] + rest) == Parsed(5, rest)
  {
    assert [I, FIVE, E] + rest == [I] + [FIVE] + [E] + rest;
    AtoiValue([FIVE]);
    DecodeIntExactly([FIVE], rest);
  }

  /** `l2:abi5ee` is the list of `ab` and 5. */
  lemma StringAndIntList()
    ensures DecodeValue([L, TWO, COLON, LOWER_A, LOWER_B, I, FIVE, E, E]) ==
      Parsed(List([Str([LOWER_A, LOWER_B]), Int(5)]), [])
  {
    var s := [L, TWO, COLON, LOWER_A, LOWER_B, I, FIVE, E, E];
    var tail := [I, FIVE, E, E];
    assert s[1..] == [TWO, COLON, LOWER_A, LOWER_B] + tail;
    TwoByteString(tail);
    assert DecodeValue(s[1..]) == Parsed(Str([LOWER_A, LOWER_B]), tail);
    assert tail == [I, FIVE, E] + [E];
    Five([E]);
    assert DecodeValue(tail) == Parsed(Int(5), [E]);
    var items := [Str([LOWER_A, LOWER_B]), Int(5)];
    ListLoopStep(tail, [items[0]], items[1], [E]);
    assert [items[0]] + [items[1]] == items && [E][1..] == [];
    ListLoopStep(s[1..], [], items[0], tail);
    assert [] + [items[0]] == [items[0]];
    RoundTrip.ValueOfList(s);
  }

  /** TestParseInt: the draft decodes the text EncodeInt writes for any `int`, such as
      `i-500000000000000e` for -500000000000000, and consumes all of it. */
  method DraftEncodedInt(n: Int64) returns (out: Draft.Outcome, unread: seq<byte>)
    ensures out == Draft.IntValue(n) && unread == []
  {
    var input := Encoder.EncodeInt(n);
    RoundTrip.IntRoundTrip(n, []);
    assert input + [] == input;
    var r := new Reader(input);
    ghost var delivered;
    out, delivered := Draft.DecodeStream(r);
    unread := r.rest;
  }

  /** TestParseIntNegative: the draft fails on `i--0e`. */
  method DraftDoubledSign() returns (out: Draft.Outcome)
    ensures out == Draft.Failed
  {
    DoubledSignRejected();
    var r := new Reader([I, MINUS, MINUS, ZERO, E]);
    ghost var delivered;
    out, delivered := Draft.DecodeStream(r);
  }

  /** TestParseBytes: the draft yields `ab` from `2:ab` exactly when its single read
      delivers both bytes, and fails otherwise. */
  method DraftTwoByteString() returns (out: Draft.Outcome, ghost delivered: nat)
    ensures 1 <= delivered <= 2
    ensures out == Draft.BytesValue([LOWER_A, LOWER_B]) <==> delivered == 2
    ensures out != Draft.BytesValue([LOWER_A, LOWER_B]) ==> out == Draft.Failed
  {
    TwoByteString([]);
    assert [TWO, COLON, LOWER_A, LOWER_B] + [] == [TWO, COLON, LOWER_A, LOWER_B];
    var r := new Reader([TWO, COLON, LOWER_A, LOWER_B]);
    out, delivered := Draft.DecodeStream(r);
  }

  /** TestParseList: the draft has no case for `l`, so on `l2:abi5ee` it never returns. */
  method DraftListNeverReturns() returns (out: Draft.Outcome)
    ensures out == Draft.Stuck
  {
    var r := new Reader([L, TWO, COLON, LOWER_A, LOWER_B, I, FIVE, E, E]);
    ghost var delivered;
    out, delivered := Draft.DecodeStream(r);
  }

  /** TestParseList, on the later decoder: Parse reads the whole input as that list. */
  method ParseStringAndIntList() returns (res: Result<Value>, unread: seq<byte>)
    ensures res == Ok(List([Str([LOWER_A, LOWER_B]), Int(5)])) && unread == []
  {
    StringAndIntList();
    var r := new Reader([L, TWO, COLON, LOWER_A, LOWER_B, I, FIVE, E, E]);
    res := Parser.Parse(r);
    unread := r.rest;
  }
}
