/** What the encoder's output is like, stated over the specification `Encoder.Encoding`. */
module EncoderFacts {
  import opened Wrappers
  import opened Ascii
  import opened Decimal
  import opened ByteOrder
  import opened Bencode
  import opened Encoder

  /** Encode fails exactly when some value nested in its argument has a type it does not
      know; the error of a nested value is the error of the whole. */
  lemma {:induction false} EncodingFailsIffOther(v: Value)
    ensures Encoding(v).Err? <==> ContainsOther(v)
    decreases v
  {
    match v
    case Int(_) =>
    case Str(_) =>
    case List(items) =>
      ItemsFailIffOther(items);
    case Dict(d) =>
      EntriesFailIffOther(d, SortedSet(d.Keys));
    case Other =>
  }

  lemma {:induction false} ItemsFailIffOther(items: seq<Value>)
    ensures ItemsEncoding(items).Err? <==> exists i :: 0 <= i < |items| && ContainsOther(items[i])
    decreases items
  {
    if items != [] {
      EncodingFailsIffOther(items[0]);
      ItemsFailIffOther(items[1..]);
      assert forall i :: 1 <= i < |items| ==> items[1..][i - 1] == items[i];
    }
  }

  lemma {:induction false} EntriesFailIffOther(d: map<seq<byte>, Value>, ks: seq<seq<byte>>)
    requires forall k :: k in ks ==> k in d
    ensures EntriesEncoding(d, ks).Err? <==> exists k :: k in ks && ContainsOther(d[k])
    decreases Dict(d), ks
  {
    if ks != [] {
      EncodingFailsIffOther(d[ks[0]]);
      EntriesFailIffOther(d, ks[1..]);
      assert forall k :: k in ks <==> k == ks[0] || k in ks[1..];
    }
  }

  /** No value the decoder can produce holds an `Other`. */
  lemma {:induction false} DecodableHasNoOther(v: Value)
    requires Decodable(v)
    ensures !ContainsOther(v)
    decreases v
  {
    match v
    case List(items) =>
      forall i | 0 <= i < |items| ensures !ContainsOther(items[i]) {
        DecodableHasNoOther(items[i]);
      }
    case Dict(d) =>
      forall k | k in d ensures !ContainsOther(d[k]) {
        DecodableHasNoOther(d[k]);
      }
    case _ =>
  }

  /** Everything the decoder can produce can be encoded. */
  lemma DecodableEncodes(v: Value)
    requires Decodable(v)
    ensures Encoding(v).Ok?
  {
    DecodableHasNoOther(v);
    EncodingFailsIffOther(v);
  }

  /** An encoding is never empty and its first byte says what kind of value it encodes, so
      it is never `e`. */
  lemma EncodingFirstByte(v: Value)
    requires Encoding(v).Ok?
    ensures var b := Encoding(v).value;
      && |b| > 0
      && (v.Int? ==> b[0] == I)
      && (v.Str? ==> IsDigit(b[0]))
      && (v.List? ==> b[0] == L)
      && (v.Dict? ==> b[0] == D)
      && b[0] != E
  {
  }

  /** A non-empty list body starts with its first child's encoding. */
  lemma ItemsEncodingFirstByte(items: seq<Value>)
    requires items != [] && ItemsEncoding(items).Ok?
    ensures Encoding(items[0]).Ok?
    ensures |ItemsEncoding(items).value| > 0 && ItemsEncoding(items).value[0] != E
  {
    EncodingFirstByte(items[0]);
  }

  /** A non-empty dictionary body starts with its first key's length prefix. */
  lemma EntriesEncodingFirstByte(d: map<seq<byte>, Value>, ks: seq<seq<byte>>)
    requires ks != [] && (forall k :: k in ks ==> k in d) && EntriesEncoding(d, ks).Ok?
    ensures |EntriesEncoding(d, ks).value| > 0 && IsDigit(EntriesEncoding(d, ks).value[0])
  {
  }
}
