/** Decoding what the encoder produced gives back the value, for every value the decoder can
    produce at all; and what the round trip shows about dictionaries whose keys are out of
    order or repeated. */
module RoundTrip {
  import opened Wrappers
  import opened Ascii
  import opened Decimal
  import opened ByteOrder
  import opened Bencode
  import opened Encoder
  import opened EncoderFacts
  import opened DecoderFacts
  import opened Grammar
  import ByteReader
  import Parser

  lemma Assoc(a: seq<byte>, b: seq<byte>, c: seq<byte>)
    ensures a + b + c == a + (b + c)
  {
  }

  lemma Regroup(a: seq<byte>, b: seq<byte>, rest: seq<byte>)
    ensures a + b + [E] + rest == a + (b + [E] + rest)
  {
  }

  lemma Regroup4(a: seq<byte>, b: seq<byte>, c: seq<byte>, d: seq<byte>, rest: seq<byte>)
    ensures a + b + c + d + [E] + rest == a + (b + (c + (d + ([E] + rest))))
  {
  }

  lemma OverwriteTwice(k: seq<byte>, v1: Value, v2: Value)
    ensures map[k := v1][k := v2] == map[k := v2]
  {
  }

  lemma TwoKeyMap(d: map<seq<byte>, Value>, k1: seq<byte>, k2: seq<byte>)
    requires k1 in d && k2 in d
    ensures (map k | k in [k1, k2] :: d[k]) == map[k1 := d[k1], k2 := d[k2]]
  {
  }

  /** The bytes after a one-byte tag. */
  lemma AfterTag(tag: byte, body: seq<byte>, rest: seq<byte>)
    ensures |[tag] + body + [E] + rest| > 0 && ([tag] + body + [E] + rest)[0] == tag
    ensures ([tag] + body + [E] + rest)[1..] == body + [E] + rest
  {
  }

  /** Parse on a list: ParseList from the `l` on. */
  lemma ValueOfList(s: seq<byte>)
    requires |s| > 0 && s[0] == L
    ensures DecodeValue(s) == match DecodeListItems(s[1..], [])
      case Parsed(items, rest) => Parsed(List(items), rest)
      case Fail => Fail
  {
  }

  /** Parse on a dictionary: ParseDictionary from the `d` on. */
  lemma ValueOfDict(s: seq<byte>)
    requires |s| > 0 && s[0] == D
    ensures DecodeValue(s) == match DecodeDictEntries(s[1..], map[])
      case Parsed(entries, rest) => Parsed(Dict(entries), rest)
      case Fail => Fail
  {
  }

  /** ParseInt reads back what EncodeInt wrote. */
  lemma IntRoundTrip(n: Int64, rest: seq<byte>)
    ensures DecodeInt(EncodeInt(n) + rest) == Parsed(n, rest)
  {
    var body := Itoa(n);
    CanonicalIntBytes(body);
    assert EncodeInt(n) + rest == [I] + body + [E] + rest;
    DecodeIntExactly(body, rest);
  }

  /** ParseByteString reads back what EncodeString wrote, for every non-empty string whose
      length is an `int`. */
  lemma StringRoundTrip(s: seq<byte>, rest: seq<byte>)
    requires 0 < |s| <= INT_MAX
    ensures DecodeByteString(EncodeString(s) + rest) == Parsed(s, rest)
  {
    var prefix := NatDigits(|s|);
    AtoiNatDigits(|s|);
    assert EncodeString(s) + rest == prefix + [COLON] + (s + rest);
    DecodeByteStringExactly(prefix, s + rest);
    assert (s + rest)[..|s|] == s && (s + rest)[|s|..] == rest;
  }

  /** Parse reads back an encoded integer. */
  lemma ValueOfInt(n: Int64, rest: seq<byte>)
    ensures DecodeValue(EncodeInt(n) + rest) == Parsed(Int(n), rest)
  {
    IntRoundTrip(n, rest);
  }

  /** Parse reads back an encoded non-empty string. */
  lemma ValueOfStr(b: seq<byte>, rest: seq<byte>)
    requires 0 < |b| <= INT_MAX
    ensures DecodeValue(EncodeString(b) + rest) == Parsed(Str(b), rest)
  {
    StringRoundTrip(b, rest);
    var s := EncodeString(b) + rest;
    assert s[0] == NatDigits(|b|)[0];
  }

  /** Parse applied to Encode(v), followed by anything, returns `v` and stops right after
      its encoding. */
  lemma {:induction false} DecodeEncode(v: Value, rest: seq<byte>)
    requires Decodable(v)
    ensures Encoding(v).Ok? && DecodeValue(Encoding(v).value + rest) == Parsed(v, rest)
    decreases v
  {
    DecodableEncodes(v);
    match v
    case Int(n) =>
      ValueOfInt(n, rest);
    case Str(b) =>
      ValueOfStr(b, rest);
    case List(items) =>
      ItemsRoundTrip(items, [], rest);
      var body := ItemsEncoding(items).value;
      AfterTag(L, body, rest);
      ValueOfList([L] + body + [E] + rest);
      assert [] + items == items;
    case Dict(d) =>
      var ks := SortedSet(d.Keys);
      EntriesRoundTrip(d, ks, map[], rest);
      var body := EntriesEncoding(d, ks).value;
      AfterTag(D, body, rest);
      ValueOfDict([D] + body + [E] + rest);
      AssignAll(d, ks);
  }

  /** The children of a non-empty list, in order, each followed by the next child's first
      byte or by the closing `e`. */
  lemma {:induction false} ItemsRoundTrip(items: seq<Value>, acc: seq<Value>, rest: seq<byte>)
    requires |items| > 0 && forall i :: 0 <= i < |items| ==> Decodable(items[i])
    ensures ItemsEncoding(items).Ok?
    ensures DecodeListItems(ItemsEncoding(items).value + [E] + rest, acc) == Parsed(acc + items, rest)
    decreases items
  {
    var tail := items[1..];
    assert items == [items[0]] + tail;
    DecodableEncodes(items[0]);
    var head := Encoding(items[0]).value;
    var tailBytes: seq<byte>;
    if tail == [] {
      tailBytes := [];
      assert ItemsEncoding(tail) == Ok([]);
    } else {
      DecodableTail(items);
      ItemsRoundTrip(tail, acc + [items[0]], rest);
      tailBytes := ItemsEncoding(tail).value;
      ItemsEncodingFirstByte(tail);
    }
    assert ItemsEncoding(items) == Ok(head + tailBytes);
    var after := tailBytes + [E] + rest;
    DecodeEncode(items[0], after);
    ListCons(head, tailBytes, rest, acc, items[0], tail);
    AppendFirst(acc, items);
  }

  lemma AppendFirst<T>(acc: seq<T>, items: seq<T>)
    requires |items| > 0
    ensures acc + [items[0]] + items[1..] == acc + items
  {
    assert items == [items[0]] + items[1..];
  }

  lemma DecodableTail(items: seq<Value>)
    requires |items| > 0 && forall i :: 0 <= i < |items| ==> Decodable(items[i])
    ensures forall i :: 0 <= i < |items[1..]| ==> Decodable(items[1..][i])
  {
    assert forall i :: 0 <= i < |items[1..]| ==> items[1..][i] == items[i + 1];
  }

  /** A child, then either the closing `e` or further children that decode on their own. */
  lemma ListCons(head: seq<byte>, tailBytes: seq<byte>, rest: seq<byte>, acc: seq<Value>, v: Value, tail: seq<Value>)
    requires DecodeValue(head + (tailBytes + [E] + rest)) == Parsed(v, tailBytes + [E] + rest)
    requires tail == [] ==> tailBytes == []
    requires tail != [] ==>
      |tailBytes| > 0 && tailBytes[0] != E &&
      DecodeListItems(tailBytes + [E] + rest, acc + [v]) == Parsed(acc + [v] + tail, rest)
    ensures DecodeListItems(head + tailBytes + [E] + rest, acc) == Parsed(acc + [v] + tail, rest)
  {
    var after := tailBytes + [E] + rest;
    Regroup(head, tailBytes, rest);
    ListLoopStep(head + after, acc, v, after);
    if tail == [] {
      assert after == [E] + rest && after[1..] == rest;
      assert acc + [v] + tail == acc + [v];
    } else {
      assert after[0] == tailBytes[0];
    }
  }

  /** The map ParseDictionary builds from `acc` by storing, key after key, the value `d`
      holds for it: a later equal key overwrites. */
  ghost function Assign(acc: map<seq<byte>, Value>, d: map<seq<byte>, Value>, ks: seq<seq<byte>>): map<seq<byte>, Value>
    requires forall k :: k in ks ==> k in d
    decreases ks
  {
    if ks == [] then acc else Assign(acc[ks[0] := d[ks[0]]], d, ks[1..])
  }

  lemma {:induction false} AssignContents(acc: map<seq<byte>, Value>, d: map<seq<byte>, Value>, ks: seq<seq<byte>>)
    requires forall k :: k in ks ==> k in d
    ensures forall k :: k in Assign(acc, d, ks) <==> k in acc || k in ks
    ensures forall k :: k in ks ==> Assign(acc, d, ks)[k] == d[k]
    ensures forall k :: k in acc && k !in ks ==> Assign(acc, d, ks)[k] == acc[k]
    decreases ks
  {
    if ks != [] {
      AssignContents(acc[ks[0] := d[ks[0]]], d, ks[1..]);
      assert forall k :: k in ks <==> k == ks[0] || k in ks[1..];
    }
  }

  /** Storing the values of the keys `ks` into an empty map gives the map of those keys. */
  lemma AssignFromEmpty(d: map<seq<byte>, Value>, ks: seq<seq<byte>>)
    requires forall k :: k in ks ==> k in d
    ensures Assign(map[], d, ks) == map k | k in ks :: d[k]
  {
    AssignContents(map[], d, ks);
  }

  /** Storing every key of `d`, in any order that lists each, rebuilds `d`. */
  lemma AssignAll(d: map<seq<byte>, Value>, ks: seq<seq<byte>>)
    requires forall k :: k in ks <==> k in d
    ensures Assign(map[], d, ks) == d
  {
    AssignContents(map[], d, ks);
  }

  /** The pairs of a dictionary body, for the keys `ks` in the order given, each followed by
      the next key's length prefix or by the closing `e`. */
  lemma {:induction false} EntriesRoundTrip(d: map<seq<byte>, Value>, ks: seq<seq<byte>>, acc: map<seq<byte>, Value>, rest: seq<byte>)
    requires ks != []
    requires forall k :: k in ks ==> k in d && 0 < |k| <= INT_MAX && Decodable(d[k])
    ensures EntriesEncoding(d, ks).Ok?
    ensures DecodeDictEntries(EntriesEncoding(d, ks).value + [E] + rest, acc) == Parsed(Assign(acc, d, ks), rest)
    decreases Dict(d), ks
  {
    var k := ks[0];
    var tail := ks[1..];
    KeysTail(d, ks);
    DecodableEncodes(d[k]);
    var key := EncodeString(k);
    var value := Encoding(d[k]).value;
    var tailBytes: seq<byte>;
    assert Assign(acc, d, ks) == Assign(acc[k := d[k]], d, tail);
    if tail == [] {
      tailBytes := [];
      assert EntriesEncoding(d, tail) == Ok([]);
      assert Assign(acc, d, ks) == acc[k := d[k]];
    } else {
      EntriesRoundTrip(d, tail, acc[k := d[k]], rest);
      tailBytes := EntriesEncoding(d, tail).value;
      EntriesEncodingFirstByte(d, tail);
    }
    assert EntriesEncoding(d, ks) == Ok(key + value + tailBytes);
    var after := tailBytes + [E] + rest;
    DecodeEncode(d[k], after);
    StringRoundTrip(k, value + after);
    DictCons(key, value, tailBytes, rest, acc, k, d[k], Parsed(Assign(acc, d, ks), rest));
  }

  lemma KeysTail(d: map<seq<byte>, Value>, ks: seq<seq<byte>>)
    requires ks != []
    requires forall k :: k in ks ==> k in d && 0 < |k| <= INT_MAX && Decodable(d[k])
    ensures forall k :: k in ks[1..] ==> k in d && 0 < |k| <= INT_MAX && Decodable(d[k])
  {
    assert forall x :: x in ks[1..] ==> x in ks;
  }

  /** A key, its value, then either the closing `e` or further pairs that decode on their
      own. */
  lemma DictCons(key: seq<byte>, value: seq<byte>, tailBytes: seq<byte>, rest: seq<byte>,
                 acc: map<seq<byte>, Value>, k: seq<byte>, v: Value, result: Decoded<map<seq<byte>, Value>>)
    requires DecodeByteString(key + (value + (tailBytes + [E] + rest))) == Parsed(k, value + (tailBytes + [E] + rest))
    requires DecodeValue(value + (tailBytes + [E] + rest)) == Parsed(v, tailBytes + [E] + rest)
    requires tailBytes == [] ==> result == Parsed(acc[k := v], rest)
    requires tailBytes != [] ==> tailBytes[0] != E && DecodeDictEntries(tailBytes + [E] + rest, acc[k := v]) == result
    ensures DecodeDictEntries(key + value + tailBytes + [E] + rest, acc) == result
  {
    var after := tailBytes + [E] + rest;
    Assoc(key, value, after);
    Regroup(key + value, tailBytes, rest);
    DictLoopStep(key + (value + after), acc, k, value + after, v, after);
    if tailBytes == [] {
      assert after == [E] + rest && after[1..] == rest;
    } else {
      assert after[0] == tailBytes[0];
    }
  }

  /** The key-order guard of ParseDictionary never rejects: a dictionary body whose keys come
      in any order, even against the ascending order Encode uses, decodes to the map of those
      keys. */
  lemma AnyKeyOrderAccepted(d: map<seq<byte>, Value>, ks: seq<seq<byte>>, rest: seq<byte>)
    requires Decodable(Dict(d))
    requires ks != [] && forall k :: k in ks ==> k in d
    ensures EntriesEncoding(d, ks).Ok?
    ensures DecodeDict([D] + EntriesEncoding(d, ks).value + [E] + rest) ==
      Parsed(map k | k in ks :: d[k], rest)
  {
    EntriesRoundTrip(d, ks, map[], rest);
    AssignFromEmpty(d, ks);
    AfterTag(D, EntriesEncoding(d, ks).value, rest);
  }

  /** In particular two keys in descending order are accepted. */
  lemma DescendingKeysAccepted(d: map<seq<byte>, Value>, k1: seq<byte>, k2: seq<byte>, rest: seq<byte>)
    requires Decodable(Dict(d)) && k1 in d && k2 in d && Less(k2, k1)
    ensures EntriesEncoding(d, [k1, k2]).Ok?
    ensures DecodeDict([D] + EntriesEncoding(d, [k1, k2]).value + [E] + rest) ==
      Parsed(map[k1 := d[k1], k2 := d[k2]], rest)
  {
    AnyKeyOrderAccepted(d, [k1, k2], rest);
    TwoKeyMap(d, k1, k2);
  }

  /** A key that occurs twice keeps the value stored last. */
  lemma DuplicateKeyOverwrites(k: seq<byte>, v1: Value, v2: Value, rest: seq<byte>)
    requires 0 < |k| <= INT_MAX && Decodable(v1) && Decodable(v2)
    ensures Encoding(v1).Ok? && Encoding(v2).Ok?
    ensures var body := EncodeString(k) + Encoding(v1).value + EncodeString(k) + Encoding(v2).value;
      DecodeDict([D] + body + [E] + rest) == Parsed(map[k := v2], rest)
  {
    DecodableEncodes(v1);
    DecodableEncodes(v2);
    var e1 := Encoding(v1).value;
    var e2 := Encoding(v2).value;
    var key := EncodeString(k);
    var last := [E] + rest;
    var second := key + (e2 + last);
    StringRoundTrip(k, e2 + last);
    DecodeEncode(v2, last);
    DictLoopStep(second, map[k := v1], k, e2 + last, v2, last);
    OverwriteTwice(k, v1, v2);
    StringRoundTrip(k, e1 + second);
    DecodeEncode(v1, second);
    DictLoopStep(key + (e1 + second), map[], k, e1 + second, v1, second);
    var body := key + e1 + key + e2;
    AfterTag(D, body, rest);
    Regroup4(key, e1, key, e2, rest);
  }

  /** Encode, then Parse over a fresh reader of the output: the value comes back and every
      byte is consumed. */
  method EncodeThenParse(v: Value) returns (res: Result<Value>, unread: seq<byte>)
    requires Decodable(v)
    ensures res == Ok(v) && unread == []
  {
    var e := Encode(v);
    DecodeEncode(v, []);
    assert e.value + [] == e.value;
    var r := new ByteReader.Reader(e.value);
    res := Parser.Parse(r);
    unread := r.rest;
  }
}
