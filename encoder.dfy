/** encoder.go: turning a value tree into bencoding. `Encoding` is what the encoder is
    specified to produce; the methods, which loop as the source does, are proved to produce
    exactly that. */
module Encoder {
  import opened Wrappers
  import opened Ascii
  import opened Decimal
  import opened ByteOrder
  import opened Bencode

  /** EncodeInt: `i`, the decimal text of `i` (no leading zero, `-` exactly when negative),
      `e`. */
  function EncodeInt(i: Int64): (r: seq<byte>)
    ensures |r| >= 3 && r[0] == I && r[|r| - 1] == E
    ensures IsCanonicalInt(r[1..|r| - 1]) && LiteralValue(r[1..|r| - 1]) == i
    ensures (r[1] == MINUS) <==> i < 0
  {
    var r := [I] + Itoa(i) + [E];
    assert r[1..|r| - 1] == Itoa(i);
    r
  }

  /** EncodeString: the length of `str` in bytes, in decimal, then `:`, then the bytes. */
  function EncodeString(str: seq<byte>): (r: seq<byte>)
    ensures var n := |r| - |str| - 1;
      && 0 < n && r[n] == COLON && r[n + 1..] == str
      && IsCanonicalNat(r[..n]) && DigitsValue(r[..n]) == |str|
  {
    var r := NatDigits(|str|) + [COLON] + str;
    assert r[..|r| - |str| - 1] == NatDigits(|str|);
    r
  }

  /** The encoding of `v`, or `Err` when some value inside it is `Other`. */
  ghost function Encoding(v: Value): Result<seq<byte>>
    decreases v
  {
    match v
    case Int(n) => Ok(EncodeInt(n))
    case Str(s) => Ok(EncodeString(s))
    case List(items) => Wrap(L, ItemsEncoding(items))
    case Dict(d) => Wrap(D, EntriesEncoding(d, SortedSet(d.Keys)))
    case Other => Err
  }

  /** `tag`, the body, `e`; an error stays an error. */
  function Wrap(tag: byte, body: Result<seq<byte>>): Result<seq<byte>> {
    match body
    case Ok(b) => Ok([tag] + b + [E])
    case Err => Err
  }

  /** `prefix` in front of the bytes; an error stays an error. */
  function Prepend(prefix: seq<byte>, r: Result<seq<byte>>): Result<seq<byte>> {
    match r
    case Ok(b) => Ok(prefix + b)
    case Err => Err
  }

  lemma PrependEmpty(r: Result<seq<byte>>)
    ensures Prepend([], r) == r
  {
    if r.Ok? {
      assert [] + r.value == r.value;
    }
  }

  lemma PrependPrepend(a: seq<byte>, b: seq<byte>, r: Result<seq<byte>>)
    ensures Prepend(a, Prepend(b, r)) == Prepend(a + b, r)
  {
    if r.Ok? {
      assert a + (b + r.value) == (a + b) + r.value;
    }
  }

  lemma DropFirstOfAppend(a: seq<byte>, b: seq<byte>, c: seq<byte>)
    requires |a| >= 1
    ensures (a + b + c)[1..] == a[1..] + (b + c)
  {
  }

  lemma DropFirst(a: seq<byte>, b: seq<byte>)
    requires |a| >= 1
    ensures (a + b)[1..] == a[1..] + b
  {
  }

  /** Once the whole body follows the tag in `result`, appending `e` completes the value. */
  lemma WrapComplete(tag: byte, result: seq<byte>, body: Result<seq<byte>>)
    requires |result| >= 1 && result[0] == tag
    requires body == Prepend(result[1..], Ok([]))
    ensures Wrap(tag, body) == Ok(result + [E])
  {
    assert result == [tag] + result[1..] && result[1..] + [] == result[1..];
  }

  /** The children's encodings, concatenated in list order. */
  ghost function ItemsEncoding(items: seq<Value>): Result<seq<byte>>
    decreases items
  {
    if items == [] then Ok([])
    else match Encoding(items[0])
      case Err => Err
      case Ok(head) => Prepend(head, ItemsEncoding(items[1..]))
  }

  /** For each key of `keys` in turn, the key as a byte string and then its value. */
  ghost function EntriesEncoding(d: map<seq<byte>, Value>, keys: seq<seq<byte>>): Result<seq<byte>>
    requires forall k :: k in keys ==> k in d
    decreases Dict(d), keys
  {
    if keys == [] then Ok([])
    else match Encoding(d[keys[0]])
      case Err => Err
      case Ok(value) => Prepend(EncodeString(keys[0]) + value, EntriesEncoding(d, keys[1..]))
  }

  /** Encode: dispatch on the dynamic type. */
  method Encode(v: Value) returns (r: Result<seq<byte>>)
    ensures r == Encoding(v)
    decreases v, 1
  {
    match v
    case Int(n) =>
      r := Ok(EncodeInt(n));
    case Str(s) =>
      r := Ok(EncodeString(s));
    case List(l) =>
      r := EncodeList(l);
    case Dict(d) =>
      r := EncodeDictionary(d);
    case Other =>
      r := Err;
  }

  /** EncodeList: `l`, each child's encoding appended in order, `e`; the first child that
      fails aborts with no output. */
  method EncodeList(l: seq<Value>) returns (r: Result<seq<byte>>)
    ensures r == Encoding(List(l))
    decreases List(l), 0
  {
    var result := [L];
    assert l[0..] == l && result[1..] == [];
    PrependEmpty(ItemsEncoding(l));
    for i := 0 to |l|
      invariant |result| >= 1 && result[0] == L
      invariant ItemsEncoding(l) == Prepend(result[1..], ItemsEncoding(l[i..]))
    {
      var child := Encode(l[i]);
      ItemsStep(l, i);
      if child.Err? {
        return Err;
      }
      PrependPrepend(result[1..], child.value, ItemsEncoding(l[i + 1..]));
      DropFirst(result, child.value);
      result := result + child.value;
    }
    assert l[|l|..] == [];
    WrapComplete(L, result, ItemsEncoding(l));
    result := result + [E];
    return Ok(result);
  }

  /** One child of the list body. */
  lemma ItemsStep(l: seq<Value>, i: nat)
    requires i < |l|
    ensures ItemsEncoding(l[i..]) == match Encoding(l[i])
      case Err => Err
      case Ok(head) => Prepend(head, ItemsEncoding(l[i + 1..]))
  {
    assert l[i..][0] == l[i] && l[i..][1..] == l[i + 1..];
  }

  /** getAllKeysSorted: the keys in whatever order the map yields them, then sort.Strings. */
  method GetAllKeysSorted(m: map<seq<byte>, Value>) returns (keys: seq<seq<byte>>)
    ensures StrictlySorted(keys)
    ensures forall k :: k in keys <==> k in m
    ensures |keys| == |m|
  {
    keys := [];
    var remaining := m.Keys;
    while remaining != {}
      invariant remaining <= m.Keys
      invariant multiset(keys) == multiset(m.Keys - remaining)
      decreases remaining
    {
      var k :| k in remaining;
      CollectStep(keys, m.Keys, remaining, k);
      keys := keys + [k];
      remaining := remaining - {k};
    }
    assert m.Keys - remaining == m.Keys;
    SortKeys(m, keys);
    keys := SortStrings(keys);
  }

  /** Moving one key from `remaining` to the collected sequence. */
  lemma CollectStep(keys: seq<seq<byte>>, all: set<seq<byte>>, remaining: set<seq<byte>>, k: seq<byte>)
    requires k in remaining && remaining <= all
    requires multiset(keys) == multiset(all - remaining)
    ensures multiset(keys + [k]) == multiset(all - (remaining - {k}))
  {
    assert all - (remaining - {k}) == (all - remaining) + {k};
    assert k !in all - remaining;
  }

  /** Sorting the keys of a map, collected once each, yields them in strictly ascending order. */
  lemma SortKeys(m: map<seq<byte>, Value>, keys: seq<seq<byte>>)
    requires multiset(keys) == multiset(m.Keys)
    ensures var r := SortStrings(keys);
      StrictlySorted(r) && (forall k :: k in r <==> k in m) && |r| == |m|
  {
    var r := SortStrings(keys);
    assert multiset(r) == multiset(m.Keys);
    SortedDistinctIsStrict(r);
    assert forall k :: k in r <==> k in multiset(r);
    assert |r| == |multiset(r)| == |multiset(m.Keys)|;
  }

  /** EncodeDictionary: `d`, then for each key in ascending order the key as a byte string
      and its value's encoding, then `e`. The source's "Key not found" error cannot happen:
      every key comes from the map itself. */
  method EncodeDictionary(d: map<seq<byte>, Value>) returns (r: Result<seq<byte>>)
    ensures r == Encoding(Dict(d))
    decreases Dict(d), 0
  {
    var result := [D];
    assert result[1..] == [];
    var k := GetAllKeysSorted(d);
    SortedKeysAreSortedSet(d, k);
    assert k[0..] == k;
    PrependEmpty(EntriesEncoding(d, k));
    for i := 0 to |k|
      invariant |result| >= 1 && result[0] == D
      invariant EntriesEncoding(d, k) == Prepend(result[1..], EntriesEncoding(d, k[i..]))
    {
      var v := k[i];
      assert v in d;
      var encodedVal := Encode(d[v]);
      EntriesStep(d, k, i);
      if encodedVal.Err? {
        return Err;
      }
      ghost var entry := EncodeString(v) + encodedVal.value;
      PrependPrepend(result[1..], entry, EntriesEncoding(d, k[i + 1..]));
      DropFirstOfAppend(result, EncodeString(v), encodedVal.value);
      result := result + EncodeString(v);
      result := result + encodedVal.value;
    }
    assert k[|k|..] == [];
    WrapComplete(D, result, EntriesEncoding(d, k));
    result := result + [E];
    return Ok(result);
  }

  /** The keys sorted by GetAllKeysSorted are the arrangement Encoding uses. */
  lemma SortedKeysAreSortedSet(d: map<seq<byte>, Value>, k: seq<seq<byte>>)
    requires StrictlySorted(k)
    requires forall x :: x in k <==> x in d
    ensures k == SortedSet(d.Keys)
    ensures forall x :: x in k ==> x in d
  {
    StrictlySortedUnique(k, SortedSet(d.Keys));
  }

  /** One entry of the dictionary body. */
  lemma EntriesStep(d: map<seq<byte>, Value>, k: seq<seq<byte>>, i: nat)
    requires i < |k|
    requires forall x :: x in k ==> x in d
    ensures forall x :: x in k[i..] ==> x in d
    ensures EntriesEncoding(d, k[i..]) == match Encoding(d[k[i]])
      case Err => Err
      case Ok(value) => Prepend(EncodeString(k[i]) + value, EntriesEncoding(d, k[i + 1..]))
  {
    assert k[i..][0] == k[i] && k[i..][1..] == k[i + 1..];
  }
}
