/** The value tree both halves of the codec work on. In the source a `BencodeCell` holds an
    `interface{}` whose dynamic type the encoder switches on; here each type it knows is a
    variant, and every other dynamic type (nil, []byte, float64, ...) is `Other`. */
module Bencode {
  import opened Ascii
  import opened Decimal

  datatype Value =
    | Int(n: Int64)                        // int
    | Str(bytes: seq<byte>)                // string
    | List(items: seq<Value>)              // []BencodeCell
    | Dict(entries: map<seq<byte>, Value>) // map[string]BencodeCell
    | Other                                // a dynamic type Encode does not handle

  /** The values the decoder of parser.go can produce: no `Other`, and no empty byte string,
      list or dictionary (it rejects `0:`, `le` and `de`). A byte string's length must be an
      `int`, since its length prefix is read with Atoi. */
  predicate Decodable(v: Value)
    decreases v
  {
    match v
    case Int(_) => true
    case Str(s) => 0 < |s| <= INT_MAX
    case List(items) => |items| > 0 && forall i :: 0 <= i < |items| ==> Decodable(items[i])
    case Dict(d) => |d| > 0 && forall k :: k in d ==> 0 < |k| <= INT_MAX && Decodable(d[k])
    case Other => false
  }

  /** Some value nested inside `v`, or `v` itself, has a type the encoder does not know. */
  predicate ContainsOther(v: Value)
    decreases v
  {
    match v
    case Int(_) => false
    case Str(_) => false
    case List(items) => exists i :: 0 <= i < |items| && ContainsOther(items[i])
    case Dict(d) => exists k :: k in d && ContainsOther(d[k])
    case Other => true
  }
}
