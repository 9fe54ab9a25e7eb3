/** parser.go: the recursive-descent decoder. Every production is a method that advances the
    shared reader; each is proved to compute what the matching function of module Grammar
    says about the unread input. After a failure the reader has advanced by some amount that
    is not specified. */
module Parser {
  import opened Wrappers
  import opened Ascii
  import opened Decimal
  import opened Bencode
  import opened ByteReader
  import opened ByteOrder
  import G = Grammar

  const CHUNK: nat := 512

  function Min(a: nat, b: nat): nat {
    if a <= b then a else b
  }

  /** Parse: peek at the next byte and dispatch on it. */
  method Parse(r: Reader) returns (res: Result<Value>)
    modifies r
    ensures G.IsSuffix(r.rest, old(r.rest))
    ensures G.Matches(G.DecodeValue(old(r.rest)), res, r.rest)
    decreases |r.rest|, 2
  {
    var b := r.Peek();
    if b.None? {
      return Err;
    }
    var c := b.value;
    if c == I {
      var n := ParseInt(r);
      if n.Err? {
        return Err;
      }
      return Ok(Int(n.value));
    } else if IsDigit(c) {
      var s := ParseByteString(r);
      if s.Err? {
        return Err;
      }
      return Ok(Str(s.value));
    } else if c == L {
      var items := ParseList(r);
      if items.Err? {
        return Err;
      }
      return Ok(List(items.value));
    } else if c == D {
      var d := ParseDictionary(r);
      if d.Err? {
        return Err;
      }
      return Ok(Dict(d.value));
    }
    return Err;
  }

  /** ParseList: `l`, then a child, then a peek that ends the list at `e`. */
  method ParseList(r: Reader) returns (res: Result<seq<Value>>)
    modifies r
    ensures G.IsSuffix(r.rest, old(r.rest))
    ensures G.Matches(G.DecodeList(old(r.rest)), res, r.rest)
    decreases |r.rest|, 1
  {
    ghost var s := r.rest;
    var confirmation := r.ReadByte();
    if confirmation != Some(L) {
      return Err;
    }
    var result: seq<Value> := [];
    while true
      invariant G.IsSuffix(r.rest, s) && |r.rest| < |s|
      invariant G.DecodeList(s) == G.DecodeListItems(r.rest, result)
      decreases |r.rest|
    {
      ghost var t := r.rest;
      var c := Parse(r);
      G.SuffixTrans(r.rest, t, s);
      if c.Err? {
        return Err;
      }
      if |r.rest| > 0 {
        G.ListLoopStep(t, result, c.value, r.rest);
      }
      result := result + [c.value];
      var p := r.Peek();
      if p.None? {
        return Err;
      }
      if p.value == E {
        var _ := r.ReadByte();
        break;
      }
    }
    return Ok(result);
  }

  /** ParseByteString: the count before `:`, then exactly that many bytes. */
  method ParseByteString(r: Reader) returns (res: Result<seq<byte>>)
    modifies r
    ensures G.IsSuffix(r.rest, old(r.rest))
    ensures G.Matches(G.DecodeByteString(old(r.rest)), res, r.rest)
  {
    ghost var s := r.rest;
    var byteCountA := r.ReadBytes(COLON);
    if byteCountA.None? {
      return Err;
    }
    ghost var j := IndexOf(s, COLON).value;
    var strRep := byteCountA.value[..|byteCountA.value| - 1];
    assert strRep == s[..j] && r.rest == s[j + 1..];
    var byteCount := Atoi(strRep);
    if byteCount.None? || byteCount.value <= 0 {
      return Err;
    }
    ghost var afterColon := r.rest;
    ghost var chunks;
    var result;
    result, chunks := ReadFullByteString(r, byteCount.value);
    if result.Err? {
      return Err;
    }
    G.SplitAfter(s, j + 1, byteCount.value);
    // The length check of parser.go:121-123 cannot fail: ReadFullByteString returns
    // exactly `byteCount` bytes whenever it succeeds.
    assert byteCount.value == |result.value|;
    return Ok(result.value);
  }

  /** The bytes of `chunks`, in order. */
  function Concat(chunks: seq<seq<byte>>): seq<byte> {
    if chunks == [] then [] else Concat(chunks[..|chunks| - 1]) + chunks[|chunks| - 1]
  }

  /** readFullByteString: reads of at most 512 bytes until `length` bytes have arrived; any
      failed read aborts. The ghost `chunks` are what the successive reads delivered. */
  method ReadFullByteString(r: Reader, length: nat) returns (res: Result<seq<byte>>, ghost chunks: seq<seq<byte>>)
    requires length > 0
    modifies r
    ensures G.IsSuffix(r.rest, old(r.rest))
    ensures res.Ok? <==> length <= |old(r.rest)|
    ensures res.Ok? ==> res.value == old(r.rest)[..length] && r.rest == old(r.rest)[length..]
    ensures res.Ok? ==> Concat(chunks) == res.value
    ensures forall i :: 0 <= i < |chunks| ==> 0 < |chunks[i]| <= CHUNK
  {
    ghost var s := r.rest;
    var result: seq<byte> := [];
    var tempLength: nat;
    if CHUNK <= length {
      tempLength := CHUNK;
    } else {
      tempLength := length;
    }
    var temp := new byte[tempLength];
    var totalByteRead: nat := 0;
    chunks := [];
    while true
      invariant fresh(temp)
      invariant totalByteRead <= length
      invariant totalByteRead < length
      invariant temp.Length == Min(CHUNK, length - totalByteRead)
      invariant totalByteRead <= |s| && r.rest == s[totalByteRead..]
      invariant result == s[..totalByteRead] == Concat(chunks)
      invariant forall i :: 0 <= i < |chunks| ==> 0 < |chunks[i]| <= CHUNK
      decreases length - totalByteRead
    {
      var n, ok := r.Read(temp);
      if !ok {
        return Err, chunks;
      }
      result := result + temp[..n];
      if n > 0 {
        chunks := chunks + [temp[..n]];
      }
      totalByteRead := totalByteRead + n;
      if length - totalByteRead < CHUNK {
        temp := new byte[length - totalByteRead];
      }
      if totalByteRead == length {
        break;
      }
    }
    return Ok(result), chunks;
  }

  /** ParseDictionary: `d`, then byte-string keys and values until a peek finds `e`. */
  method ParseDictionary(r: Reader) returns (res: Result<map<seq<byte>, Value>>)
    modifies r
    ensures G.IsSuffix(r.rest, old(r.rest))
    ensures G.Matches(G.DecodeDict(old(r.rest)), res, r.rest)
    decreases |r.rest|, 1
  {
    ghost var s := r.rest;
    var confirmation := r.ReadByte();
    if confirmation != Some(D) {
      return Err;
    }
    var lastIndex: seq<byte> := [];
    var result: map<seq<byte>, Value> := map[];
    while true
      invariant G.IsSuffix(r.rest, s) && |r.rest| < |s|
      invariant G.DecodeDict(s) == G.DecodeDictEntries(r.rest, result)
      decreases |r.rest|
    {
      ghost var t := r.rest;
      var i := ParseByteString(r);
      G.SuffixTrans(r.rest, t, s);
      if i.Err? {
        G.DictLoopFails(t, result);
        return Err;
      }
      ghost var afterKey := r.rest;
      var key := i.value;
      // The key-order guard of parser.go:185-187 would reject a key when `lastIndex` is not
      // empty and sorts after it, but `lastIndex` is never assigned after its declaration:
      // its first conjunct is false on every round, so the guard never rejects.
      var strComp := Compare(lastIndex, key);
      assert !(lastIndex != [] && strComp == 1);
      var v := Parse(r);
      G.SuffixTrans(r.rest, afterKey, s);
      if v.Err? {
        G.DictLoopFails(t, result);
        return Err;
      }
      if |r.rest| == 0 {
        G.DictLoopFails(t, result);
      } else {
        G.DictLoopStep(t, result, key, afterKey, v.value, r.rest);
      }
      result := result[key := v.value];
      var p := r.Peek();
      if p.None? {
        return Err;
      }
      if p.value == E {
        var _ := r.ReadByte();
        break;
      }
    }
    return Ok(result);
  }

  /** ParseInt: `i`, then bytes accumulated in `numberBuffer` up to the first `e`, then the
      checks on the accumulated text. */
  method ParseInt(r: Reader) returns (res: Result<Int64>)
    modifies r
    ensures G.IsSuffix(r.rest, old(r.rest))
    ensures G.Matches(G.DecodeInt(old(r.rest)), res, r.rest)
  {
    ghost var s := r.rest;
    var confirmation := r.ReadByte();
    if confirmation != Some(I) {
      return Err;
    }
    var numberBuffer: seq<byte> := [];
    while true
      invariant 1 + |numberBuffer| <= |s| && r.rest == s[1 + |numberBuffer|..]
      invariant numberBuffer == s[1..1 + |numberBuffer|]
      invariant G.IntBodyEnd(s, 1) == G.IntBodyEnd(s, 1 + |numberBuffer|)
      decreases |r.rest|
    {
      var b := r.ReadByte();
      if b.None? {
        return Err;
      }
      if b.value == E {
        break;
      }
      if !IsDigit(b.value) && b.value != MINUS {
        return Err;
      }
      numberBuffer := numberBuffer + [b.value];
    }
    if HasPrefix(numberBuffer, [ZERO]) && |numberBuffer| > 1 {
      return Err;
    }
    if HasPrefix(numberBuffer, [MINUS, ZERO]) {
      return Err;
    }
    var result := Atoi(numberBuffer);
    if result.None? {
      return Err;
    }
    return Ok(result.value);
  }
}
