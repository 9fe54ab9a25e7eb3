/** bencode.go: the earlier, partial decoder. It recognises only integers and byte strings,
    and reads a byte string's payload with one single Read, which may deliver fewer bytes than
    were asked for. */
module Draft {
  import opened Wrappers
  import opened Ascii
  import opened Decimal
  import opened ByteReader
  import G = Grammar
  import Parser

  /** What DecodeStream hands back. A byte string comes back as raw bytes (Go's []byte), not
      as the Value the later decoder builds. `Stuck` stands for the source's loop that keeps
      peeking at a byte it has no case for: it never returns and consumes nothing. */
  datatype Outcome = Nothing | IntValue(n: Int64) | BytesValue(bytes: seq<byte>) | Failed | Stuck

  /** DecodeStream: peek; at the end of the input there is nothing; `i` is an integer, a digit
      a byte string; on any other byte the source loops forever. On a byte string,
      `delivered` is how many payload bytes the single Read of ParseByteString delivered. */
  method DecodeStream(r: Reader) returns (out: Outcome, ghost delivered: nat)
    modifies r
    ensures G.IsSuffix(r.rest, old(r.rest))
    ensures old(r.rest) == [] ==> out == Nothing && r.rest == old(r.rest)
    ensures old(r.rest) != [] && old(r.rest)[0] == I ==>
      match G.DecodeInt(old(r.rest))
      case Parsed(n, rest) => out == IntValue(n) && r.rest == rest
      case Fail => out == Failed
    ensures old(r.rest) != [] && IsDigit(old(r.rest)[0]) ==>
      match G.DecodeByteString(old(r.rest))
      case Parsed(v, rest) =>
        && 1 <= delivered <= |v|
        && (delivered == |v| ==> out == BytesValue(v) && r.rest == rest)
        && (delivered != |v| ==> out == Failed)
      case Fail => out == Failed
    ensures old(r.rest) != [] && old(r.rest)[0] != I && !IsDigit(old(r.rest)[0]) ==>
      out == Stuck && r.rest == old(r.rest)
  {
    delivered := 0;
    var b := r.Peek();
    if b.None? {
      return Nothing, delivered;
    }
    var c := b.value;
    if c == I {
      // bencode.go:83-131 is the same procedure as parser.go:212-256.
      var result := Parser.ParseInt(r);
      if result.Err? {
        return Failed, delivered;
      }
      return IntValue(result.value), delivered;
    } else if IsDigit(c) {
      var result;
      result, delivered := ParseByteString(r);
      if result.Err? {
        return Failed, delivered;
      }
      return BytesValue(result.value), delivered;
    }
    return Stuck, delivered;
  }

  /** How the outcome of ParseByteString relates to the later decoder's: where that fails
      this one fails; where it succeeds, this one succeeds exactly when the single read
      delivered the whole payload, and then with the same bytes and the same rest. */
  ghost predicate SingleRead(d: G.Decoded<seq<byte>>, res: Result<seq<byte>>, delivered: nat, after: seq<byte>) {
    match d
    case Fail => res.Err?
    case Parsed(v, rest) =>
      && 1 <= delivered <= |v|
      && (res.Ok? <==> delivered == |v|)
      && (res.Ok? ==> res.value == v && after == rest)
  }

  /** ParseByteString: the count before `:`, then one Read into a buffer of that size; the
      read must deliver the whole payload at once. `delivered` is how many bytes it did
      deliver. */
  method ParseByteString(r: Reader) returns (res: Result<seq<byte>>, ghost delivered: nat)
    modifies r
    ensures G.IsSuffix(r.rest, old(r.rest))
    ensures SingleRead(G.DecodeByteString(old(r.rest)), res, delivered, r.rest)
  {
    ghost var s := r.rest;
    delivered := 0;
    var byteCountA := r.ReadBytes(COLON);
    if byteCountA.None? {
      assert G.DecodeByteString(s).Fail?;
      return Err, delivered;
    }
    ghost var j := IndexOf(s, COLON).value;
    var strRep := byteCountA.value[..|byteCountA.value| - 1];
    assert strRep == s[..j] && r.rest == s[j + 1..];
    var byteCount := Atoi(strRep);
    if byteCount.None? || byteCount.value <= 0 {
      assert G.DecodeByteString(s).Fail?;
      return Err, delivered;
    }
    res, delivered := ReadPayload(r, byteCount.value);
    PayloadOutcome(s, j, byteCount.value, res, delivered, r.rest);
  }

  /** What ReadPayload promises, after the count, is what SingleRead asks for. */
  lemma PayloadOutcome(s: seq<byte>, j: nat, count: nat, res: Result<seq<byte>>, delivered: nat, after: seq<byte>)
    requires IndexOf(s, COLON) == Some(j) && Atoi(s[..j]) == Some(count) && count > 0
    requires var payload := s[j + 1..];
      && (count <= |payload| ==> 1 <= delivered <= count && (res.Ok? <==> delivered == count))
      && (count > |payload| ==> res.Err?)
      && (res.Ok? ==> res.value == payload[..count] && after == payload[count..])
    ensures SingleRead(G.DecodeByteString(s), res, delivered, after)
  {
    G.ByteStringUnfold(s, j, count);
    if count <= |s| - (j + 1) {
      G.SplitAfter(s, j + 1, count);
    }
  }

  /** The payload step of ParseByteString: a buffer of `count` bytes, one Read into it, and
      failure unless the read filled it. */
  method ReadPayload(r: Reader, count: nat) returns (res: Result<seq<byte>>, ghost delivered: nat)
    requires count > 0
    modifies r
    ensures G.IsSuffix(r.rest, old(r.rest))
    ensures count <= |old(r.rest)| ==> 1 <= delivered <= count && (res.Ok? <==> delivered == count)
    ensures count > |old(r.rest)| ==> res.Err?
    ensures res.Ok? ==> res.value == old(r.rest)[..count] && r.rest == old(r.rest)[count..]
  {
    delivered := 0;
    var result := new byte[count];
    var n, ok := r.Read(result);
    if !ok {
      return Err, delivered;
    }
    delivered := n;
    if count != n {
      return Err, delivered;
    }
    return Ok(result[..]), delivered;
  }
}
