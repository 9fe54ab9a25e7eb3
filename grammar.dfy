/** What the decoder of parser.go computes, as functions of the unread input: each production
    takes the bytes not yet consumed and yields the decoded value together with the bytes it
    leaves unconsumed, or fails. The imperative decoder in module Parser is proved to agree
    with these functions; the lemmas here state what the productions accept. */
module Grammar {
  import opened Wrappers
  import opened Ascii
  import opened Decimal
  import opened Bencode

  datatype Decoded<T> = Parsed(value: T, rest: seq<byte>) | Fail

  /** `t` is what is left of `s` after some bytes were consumed from its front. */
  predicate IsSuffix(t: seq<byte>, s: seq<byte>) {
    |t| <= |s| && s[|s| - |t|..] == t
  }

  lemma SuffixOfTail(t: seq<byte>, s: seq<byte>)
    requires |s| > 0 && IsSuffix(t, s[1..])
    ensures IsSuffix(t, s)
  {
    assert s[1..][|s| - 1 - |t|..] == s[|s| - |t|..];
  }

  lemma SuffixTrans(a: seq<byte>, b: seq<byte>, c: seq<byte>)
    requires IsSuffix(a, b) && IsSuffix(b, c)
    ensures IsSuffix(a, c)
  {
    assert c[|c| - |b|..][|b| - |a|..] == c[|c| - |a|..];
  }

  lemma SuffixDrop(t: seq<byte>, s: seq<byte>)
    requires IsSuffix(t, s) && |t| > 0
    ensures IsSuffix(t[1..], s) && |t[1..]| < |t|
  {
    assert s[|s| - |t|..][1..] == s[|s| - |t[1..]|..];
  }

  /** The next `count` bytes after index `j`, and what follows them. */
  lemma SplitAfter(s: seq<byte>, j: nat, count: nat)
    requires j + count <= |s|
    ensures s[j..][..count] == s[j..j + count] && s[j..][count..] == s[j + count..]
  {
  }

  /** A decoder call `res`, leaving `after` unread, did what the production `d` describes. */
  ghost predicate Matches<T>(d: Decoded<T>, res: Result<T>, after: seq<byte>) {
    match d
    case Parsed(v, rest) => res == Ok(v) && after == rest
    case Fail => res.Err?
  }

  /** The bytes ParseInt accumulates: ASCII digits and `-`. */
  predicate IsIntByte(b: byte) {
    IsDigit(b) || b == MINUS
  }

  /** Where the loop of ParseInt, started at index `i` of `s`, meets its terminating `e`;
      `None` when it meets another byte that is neither a digit nor `-`, or the end first. */
  function IntBodyEnd(s: seq<byte>, i: nat): (r: Option<nat>)
    requires i <= |s|
    ensures r.Some? ==> i <= r.value < |s| && s[r.value] == E
    decreases |s| - i
  {
    if i == |s| then None
    else if s[i] == E then Some(i)
    else if IsIntByte(s[i]) then IntBodyEnd(s, i + 1)
    else None
  }

  /** The checks ParseInt makes once it has the bytes between `i` and `e`. Whatever the
      body, what they accept is a canonical literal, read as its value, or (a body ParseInt
      itself never builds) one that starts with `+`. */
  function IntBodyValue(body: seq<byte>): (r: Option<Int64>)
    ensures r.Some? ==> 0 < |body| && (body[0] == PLUS || (IsCanonicalInt(body) && r.value == LiteralValue(body)))
  {
    if HasPrefix(body, [ZERO]) && |body| > 1 then None
    else if HasPrefix(body, [MINUS, ZERO]) then None
    else
      AtoiValue(body);
      if |body| > 1 && body[0] == MINUS then
        assert body[..2] == [MINUS, body[1]];
        assert body[1..][0] == body[1];
        Atoi(body)
      else
        assert |body| > 0 ==> body[..1] == [body[0]];
        Atoi(body)
  }

  /** ParseInt: `i`, a body, `e`. */
  function DecodeInt(s: seq<byte>): (r: Decoded<Int64>)
    ensures r.Parsed? ==> IsSuffix(r.rest, s) && |r.rest| < |s|
  {
    if |s| == 0 || s[0] != I then Fail
    else match IntBodyEnd(s, 1)
      case None => Fail
      case Some(j) =>
        match IntBodyValue(s[1..j])
        case None => Fail
        case Some(n) => Parsed(n, s[j + 1..])
  }

  /** ParseByteString: a count up to the first `:`, read with Atoi and required to be
      positive, then exactly that many bytes. */
  function DecodeByteString(s: seq<byte>): (r: Decoded<seq<byte>>)
    ensures r.Parsed? ==> IsSuffix(r.rest, s) && |r.rest| < |s|
    ensures r.Parsed? ==> 0 < |r.value| <= INT_MAX
  {
    match IndexOf(s, COLON)
    case None => Fail
    case Some(j) =>
      match Atoi(s[..j])
      case None => Fail
      case Some(count) =>
        if count <= 0 || |s| - (j + 1) < count then Fail
        else Parsed(s[j + 1..j + 1 + count], s[j + 1 + count..])
  }

  /** DecodeByteString once the count before the first `:` is known. */
  lemma ByteStringUnfold(s: seq<byte>, j: nat, count: Int64)
    requires IndexOf(s, COLON) == Some(j) && Atoi(s[..j]) == Some(count)
    ensures j < |s|
    ensures DecodeByteString(s) ==
      if count <= 0 || |s| - (j + 1) < count then Fail
      else Parsed(s[j + 1..j + 1 + count], s[j + 1 + count..])
  {
  }

  /** Parse: dispatch on the next byte, which is not consumed by the dispatch itself. */
  function DecodeValue(s: seq<byte>): (r: Decoded<Value>)
    ensures r.Parsed? ==> IsSuffix(r.rest, s) && |r.rest| < |s|
    decreases |s|, 2
  {
    if |s| == 0 then Fail
    else if s[0] == I then
      match DecodeInt(s)
      case Parsed(n, rest) => Parsed(Int(n), rest)
      case Fail => Fail
    else if IsDigit(s[0]) then
      match DecodeByteString(s)
      case Parsed(b, rest) => Parsed(Str(b), rest)
      case Fail => Fail
    else if s[0] == L then
      match DecodeList(s)
      case Parsed(items, rest) => Parsed(List(items), rest)
      case Fail => Fail
    else if s[0] == D then
      match DecodeDict(s)
      case Parsed(d, rest) => Parsed(Dict(d), rest)
      case Fail => Fail
    else Fail
  }

  /** ParseList: `l`, then values until the byte after one of them is `e`. */
  function DecodeList(s: seq<byte>): (r: Decoded<seq<Value>>)
    ensures r.Parsed? ==> IsSuffix(r.rest, s) && |r.rest| < |s|
    decreases |s|, 1
  {
    if |s| == 0 || s[0] != L then Fail
    else DecodeListItems(s[1..], [])
  }

  /** The loop of ParseList: one more child, appended to `acc`, then a peek for `e`. */
  function DecodeListItems(t: seq<byte>, acc: seq<Value>): (r: Decoded<seq<Value>>)
    ensures r.Parsed? ==> IsSuffix(r.rest, t) && |r.rest| < |t|
    decreases |t|, 3
  {
    match DecodeValue(t)
    case Fail => Fail
    case Parsed(v, rest) =>
      if |rest| == 0 then Fail
      else if rest[0] == E then SuffixDrop(rest, t); Parsed(acc + [v], rest[1..])
      else
        var r := DecodeListItems(rest, acc + [v]);
        if r.Parsed? then SuffixTrans(r.rest, rest, t); r else r
  }

  /** ParseDictionary: `d`, then key/value pairs until the byte after a value is `e`. */
  function DecodeDict(s: seq<byte>): (r: Decoded<map<seq<byte>, Value>>)
    ensures r.Parsed? ==> IsSuffix(r.rest, s) && |r.rest| < |s|
    decreases |s|, 1
  {
    if |s| == 0 || s[0] != D then Fail
    else
      var r := DecodeDictEntries(s[1..], map[]);
      if r.Parsed? then SuffixOfTail(r.rest, s); r else r
  }

  /** The loop of ParseDictionary: a key read by ParseByteString directly (no dispatch on its
      first byte), a value, an insertion that overwrites an earlier equal key, a peek for
      `e`. The key-order guard of parser.go:185-187 compares against a variable that is
      never assigned and so never rejects; it has no counterpart here. */
  function DecodeDictEntries(t: seq<byte>, acc: map<seq<byte>, Value>): (r: Decoded<map<seq<byte>, Value>>)
    ensures r.Parsed? ==> IsSuffix(r.rest, t) && |r.rest| < |t|
    decreases |t|, 3
  {
    match DecodeByteString(t)
    case Fail => Fail
    case Parsed(key, afterKey) =>
      match DecodeValue(afterKey)
      case Fail => Fail
      case Parsed(v, rest) =>
        SuffixTrans(rest, afterKey, t);
        if |rest| == 0 then Fail
        else if rest[0] == E then SuffixDrop(rest, t); Parsed(acc[key := v], rest[1..])
        else
          var r := DecodeDictEntries(rest, acc[key := v]);
          if r.Parsed? then SuffixTrans(r.rest, rest, t); r else r
  }

  /** One round of the loop of ParseList. */
  lemma ListLoopStep(t: seq<byte>, acc: seq<Value>, v: Value, after: seq<byte>)
    requires DecodeValue(t) == Parsed(v, after) && |after| > 0
    ensures DecodeListItems(t, acc) ==
      if after[0] == E then Parsed(acc + [v], after[1..]) else DecodeListItems(after, acc + [v])
  {
  }

  /** One round of the loop of ParseDictionary. */
  lemma DictLoopStep(t: seq<byte>, acc: map<seq<byte>, Value>, k: seq<byte>, afterKey: seq<byte>, v: Value, after: seq<byte>)
    requires DecodeByteString(t) == Parsed(k, afterKey)
    requires DecodeValue(afterKey) == Parsed(v, after) && |after| > 0
    ensures DecodeDictEntries(t, acc) ==
      if after[0] == E then Parsed(acc[k := v], after[1..]) else DecodeDictEntries(after, acc[k := v])
  {
  }

  /** A round of the loop of ParseDictionary whose key, value or following peek fails. */
  lemma DictLoopFails(t: seq<byte>, acc: map<seq<byte>, Value>)
    requires match DecodeByteString(t)
      case Fail => true
      case Parsed(_, afterKey) =>
        match DecodeValue(afterKey)
        case Fail => true
        case Parsed(_, after) => |after| == 0
    ensures DecodeDictEntries(t, acc) == Fail
  {
  }

  /** The loop of ParseList only appends: started on a non-empty `acc`, it yields `acc`
      followed by the children it decodes, in input order, exactly when the loop started on
      no children succeeds, and leaves the same rest. */
  lemma {:induction false} ListItemsAppend(t: seq<byte>, acc: seq<Value>)
    ensures DecodeListItems(t, acc) ==
      match DecodeListItems(t, [])
      case Fail => Fail
      case Parsed(items, rest) => Parsed(acc + items, rest)
    decreases |t|
  {
    match DecodeValue(t)
    case Fail =>
    case Parsed(v, rest) =>
      assert [] + [v] == [v];
      if |rest| > 0 && rest[0] != E {
        ListItemsAppend(rest, acc + [v]);
        ListItemsAppend(rest, [v]);
        match DecodeListItems(rest, [])
        case Fail =>
        case Parsed(items, _) =>
          assert acc + [v] + items == acc + ([v] + items);
      }
  }

  /** Inserting one binding is overlaying a one-entry map. */
  lemma UpdateIsOverlay(acc: map<seq<byte>, Value>, key: seq<byte>, v: Value)
    ensures acc[key := v] == acc + map[key := v]
  {
  }

  lemma OverlayAfterUpdate(acc: map<seq<byte>, Value>, key: seq<byte>, v: Value, m: map<seq<byte>, Value>)
    ensures acc[key := v] + m == acc + (map[key := v] + m)
  {
  }

  /** The loop of ParseDictionary only inserts: started on `acc`, it yields `acc` overlaid with
      the entries it decodes, a later binding of a key replacing an earlier one, exactly when
      the loop started on no entries succeeds, and leaves the same rest. */
  lemma {:induction false} DictEntriesOverlay(t: seq<byte>, acc: map<seq<byte>, Value>)
    ensures DecodeDictEntries(t, acc) ==
      match DecodeDictEntries(t, map[])
      case Fail => Fail
      case Parsed(m, rest) => Parsed(acc + m, rest)
    decreases |t|
  {
    var empty: map<seq<byte>, Value> := map[];
    match DecodeByteString(t)
    case Fail =>
      DictLoopFails(t, acc);
      DictLoopFails(t, empty);
    case Parsed(key, afterKey) =>
      match DecodeValue(afterKey)
      case Fail =>
        DictLoopFails(t, acc);
        DictLoopFails(t, empty);
      case Parsed(v, rest) =>
        if |rest| == 0 {
          DictLoopFails(t, acc);
          DictLoopFails(t, empty);
        } else {
          SuffixTrans(rest, afterKey, t);
          DictLoopStep(t, acc, key, afterKey, v, rest);
          DictLoopStep(t, empty, key, afterKey, v, rest);
          assert empty[key := v] == map[key := v];
          if rest[0] == E {
            UpdateIsOverlay(acc, key, v);
          } else {
            DictEntriesOverlay(rest, acc[key := v]);
            DictEntriesOverlay(rest, map[key := v]);
            match DecodeDictEntries(rest, empty)
            case Fail =>
            case Parsed(m, _) =>
              OverlayAfterUpdate(acc, key, v, m);
          }
        }
  }
}
