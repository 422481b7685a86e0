/**
 A block of headers with no body: EncodeHeaders and DecodeHeaders of
 internal/mmspdu/header.go.
 */
module HeaderBlock {
  import opened Bytes
  import opened Sorting
  import opened Reader
  import opened Codec
  import opened CodecLaws

  /** The headers in ascending order of field. */
  ghost function BlockBytes(headers: HeaderMap): Result<bytes> {
    var fields := Ascending(ByteLe, headers.Keys);
    FieldsOf(headers);
    SequenceBytes(headers, fields)
  }

  lemma FieldsOf(headers: HeaderMap)
    ensures forall f :: f in Ascending(ByteLe, headers.Keys) <==> f in headers
  {
    ByteOrder();
    AscendingMembers(ByteLe, headers.Keys);
  }

  method EncodeHeaders(headers: HeaderMap) returns (r: Result<bytes>)
    ensures r == BlockBytes(headers)
  {
    hide Ascending, SequenceBytes;
    var fields := CollectUnseen(headers, {});
    assert headers.Keys - {} == headers.Keys;
    FieldsOf(headers);
    r := AppendHeaders(headers, Sort(ByteLe, fields), []);
    assert forall s: bytes :: [] + s == s;
  }

  /** Header after header until the input ends; a repeated field keeps its last value. */
  function ParseBlock(s: bytes, headers: HeaderMap): Result<HeaderMap>
    decreases |s|
  {
    if s == [] then Ok(headers)
    else
      var h :- ParseHeader(s);
      ParseBlock(h.rest, headers[h.value.field := h.value])
  }

  method DecodeHeaders(data: bytes) returns (r: Result<HeaderMap>)
    ensures r == ParseBlock(data, map[])
  {
    hide ParseHeader;
    var reader := new ByteReader(data);
    var headers: HeaderMap := map[];
    while reader.Remaining() > 0
      invariant reader.Valid() && fresh(reader)
      invariant ParseBlock(reader.Rest(), headers) == ParseBlock(data, map[])
      decreases |reader.Rest()|
    {
      var h := ReadHeader(reader);
      if h.Err? {
        return Err(h.error);
      }
      headers := headers[h.value.field := h.value];
    }
    r := Ok(headers);
  }

  predicate AllDelimited(headers: HeaderMap) {
    forall f | f in headers :: WellFormedHeader(f, headers[f].raw)
  }

  lemma {:induction false} BlockOfSequence(headers: HeaderMap, fields: seq<byte>, got: HeaderMap)
    requires AllDelimited(headers) && forall f | f in fields :: f in headers
    ensures SequenceBytes(headers, fields).Ok?
    ensures ParseBlock(SequenceBytes(headers, fields).value, got) == Ok(PutAll(Typed(headers), fields, got))
    decreases |fields|
  {
    hide ParseHeader, HeaderBytes, WellFormedHeader;
    if fields != [] {
      var field := fields[0];
      BlockOfSequence(headers, fields[1..], got[field := Typed(headers)[field]]);
      HeaderParses(field, headers[field], SequenceBytes(headers, fields[1..]).value);
    }
  }

  /** Headers that delimit themselves are read back, with the kinds their fields have. */
  lemma BlockRoundTrip(headers: HeaderMap)
    requires AllDelimited(headers)
    ensures BlockBytes(headers).Ok?
    ensures ParseBlock(BlockBytes(headers).value, map[]) == Ok(Typed(headers))
  {
    hide Ascending, WellFormedHeader, ParseBlock, SequenceBytes;
    FieldsOf(headers);
    var fields := Ascending(ByteLe, headers.Keys);
    BlockOfSequence(headers, fields, map[]);
    PutListing(Typed(headers), fields);
  }

  lemma {:induction false} ParsedBlockDelimited(s: bytes, headers: HeaderMap)
    requires AllDelimited(headers) && Typed(headers) == headers
    ensures ParseBlock(s, headers).Ok? ==>
              AllDelimited(ParseBlock(s, headers).value)
                && Typed(ParseBlock(s, headers).value) == ParseBlock(s, headers).value
    decreases |s|
  {
    hide ParseHeader, WellFormedHeader;
    if s != [] && ParseHeader(s).Ok? {
      ParsedHeaderWellFormed(s);
      var h := ParseHeader(s).value;
      ParsedBlockDelimited(h.rest, headers[h.value.field := h.value]);
    }
  }

  /** Whatever block decodes, its headers can be encoded and decoded again unchanged. */
  lemma BlockReencodes(data: bytes)
    requires ParseBlock(data, map[]).Ok?
    ensures var headers := ParseBlock(data, map[]).value;
            BlockBytes(headers).Ok? && ParseBlock(BlockBytes(headers).value, map[]) == Ok(headers)
  {
    hide ParseBlock, WellFormedHeader;
    assert Typed(map[]) == map[];
    ParsedBlockDelimited(data, map[]);
    BlockRoundTrip(ParseBlock(data, map[]).value);
  }
}
