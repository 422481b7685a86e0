/**
 The MMS PDU: internal/mmspdu/codec.go. Headers in a chosen or canonical order,
 Content-Type last in front of a multipart body.
 */
module Codec {
  import opened Bytes
  import opened Sorting
  import opened Reader
  import opened Fields
  import opened Headers
  import opened ContentType
  import opened Multipart

  type HeaderMap = map<byte, HeaderValue>

  datatype PDU = PDU(
    messageType: byte,
    transactionID: text,
    mmsVersion: text,
    headers: HeaderMap,
    headerOrder: seq<byte>,
    body: Option<MultipartBody>)

  // ---------------------------------------------------------------- versions

  function EncodeVersion(version: text): (b: byte)
    ensures b <= 0x7F
  {
    if version == Ascii("1.0") then 0x10
    else if version == Ascii("1.1") then 0x11
    else if version == Ascii("1.2") then 0x12
    else if version == Ascii("1.3") then 0x13
    else 0x13
  }

  function DecodeVersion(b: byte): text {
    match b
    case 0x10 => Ascii("1.0")
    case 0x11 => Ascii("1.1")
    case 0x12 => Ascii("1.2")
    case 0x13 => Ascii("1.3")
    case _ => []
  }

  // ---------------------------------------------------------- emission order

  /** The fields of `order` that have a value, in order. */
  function Present(headers: HeaderMap, order: seq<byte>): seq<byte> {
    if order == [] then []
    else (if order[0] in headers then [order[0]] else []) + Present(headers, order[1..])
  }

  function FieldSet(order: seq<byte>): set<byte> {
    set f | f in order
  }

  /** `order` first, then every other field ascending. */
  ghost function Emission(headers: HeaderMap, order: seq<byte>): seq<byte> {
    Present(headers, order) + Ascending(ByteLe, headers.Keys - FieldSet(order))
  }

  function LeadingFields(): seq<byte> {
    [FIELD_MESSAGE_TYPE, FIELD_TRANSACTION_ID, FIELD_MMS_VERSION]
  }

  ghost function OrderedEmission(headers: HeaderMap, order: seq<byte>): seq<byte> {
    Emission(headers, if order == [] then LeadingFields() else order)
  }

  function HeaderBytes(field: byte, value: HeaderValue): bytes {
    EncodeHeaderName(field) + value.raw
  }

  /** Names and raw values in sequence; an empty value is an error. */
  function SequenceBytes(headers: HeaderMap, fields: seq<byte>): Result<bytes>
    requires forall f | f in fields :: f in headers
  {
    if fields == [] then Ok([])
    else if headers[fields[0]].raw == [] then Err(EmptyValue)
    else
      var rest :- SequenceBytes(headers, fields[1..]);
      Ok(HeaderBytes(fields[0], headers[fields[0]]) + rest)
  }

  lemma {:induction false} PresentShape(headers: HeaderMap, order: seq<byte>)
    ensures forall f :: f in Present(headers, order) <==> f in order && f in headers
    ensures NoDuplicates(order) ==> NoDuplicates(Present(headers, order))
    ensures (forall f | f in order :: f in headers) ==> Present(headers, order) == order
  {
    if order != [] {
      PresentShape(headers, order[1..]);
      assert order == [order[0]] + order[1..];
    }
  }

  /** The two halves of an emission: the fields listed that have a value, and the others ascending. */
  lemma EmissionHalves(headers: HeaderMap, order: seq<byte>)
    ensures var front, tail := Present(headers, order), Ascending(ByteLe, headers.Keys - FieldSet(order));
            && Emission(headers, order) == front + tail
            && (forall f :: f in front <==> f in order && f in headers)
            && (forall f :: f in tail <==> f !in order && f in headers)
            && NoDuplicates(tail) && Sorted(ByteLe, tail)
  {
    hide Ascending, Present, Sorted, NoDuplicates;
    var rest := headers.Keys - FieldSet(order);
    PresentShape(headers, order);
    ByteOrder();
    AscendingShape(ByteLe, rest);
    AscendingMembers(ByteLe, rest);
  }

  lemma StrictlyAscending(fields: seq<byte>)
    requires NoDuplicates(fields) && Sorted(ByteLe, fields)
    ensures forall i, j | 0 <= i < j < |fields| :: fields[i] < fields[j]
  {
    forall i, j | 0 <= i < j < |fields| ensures fields[i] < fields[j] {
      assert ByteLe(fields[i], fields[j]);
    }
  }

  /** Exactly the fields that have a value, each once when the order repeats none. */
  lemma EmissionShape(headers: HeaderMap, order: seq<byte>)
    ensures forall f :: f in Emission(headers, order) <==> f in headers
    ensures NoDuplicates(order) ==> Enumerates(Emission(headers, order), headers.Keys)
    ensures Present(headers, order) <= Emission(headers, order)
    ensures Sorted(ByteLe, Emission(headers, order)[|Present(headers, order)|..])
    ensures headers.Keys <= FieldSet(order) ==> Emission(headers, order) == Present(headers, order)
  {
    EmissionHalves(headers, order);
    PresentShape(headers, order);
    hide Ascending, Present, Emission, Sorted;
    var front, tail := Present(headers, order), Ascending(ByteLe, headers.Keys - FieldSet(order));
    assert tail != [] ==> tail[0] in tail;
    assert Emission(headers, order)[|front|..] == tail;
    assert forall f :: f in front + tail <==> f in headers;
    if NoDuplicates(order) {
      ConcatNoDuplicates(front, tail);
      assert FieldSet(front + tail) == headers.Keys;
    }
    if headers.Keys <= FieldSet(order) {
      assert forall f | f in headers :: f in FieldSet(order);
      assert tail == [];
      assert front + [] == front;
    }
  }

  /** The fields that are not listed come in ascending order of their codes. */
  lemma EmissionAscends(headers: HeaderMap, order: seq<byte>)
    ensures var e, n := Emission(headers, order), |Present(headers, order)|;
            && n <= |e| && e[..n] == Present(headers, order)
            && (forall i, j | n <= i < j < |e| :: e[i] < e[j])
            && (forall f :: f in e[n..] <==> f in headers && f !in order)
  {
    EmissionHalves(headers, order);
    hide Ascending, Present, Emission, Sorted, NoDuplicates;
    var front, tail := Present(headers, order), Ascending(ByteLe, headers.Keys - FieldSet(order));
    StrictlyAscending(tail);
    var e := Emission(headers, order);
    assert e[|front|..] == tail;
    forall i, j | |front| <= i < j < |e| ensures e[i] < e[j] {
      assert e[i] == tail[i - |front|] && e[j] == tail[j - |front|];
    }
  }

  /** Listing the emission order as the order changes nothing. */
  lemma EmissionStable(headers: HeaderMap, order: seq<byte>)
    ensures Emission(headers, Emission(headers, order)) == Emission(headers, order)
  {
    EmissionShape(headers, order);
    var e := Emission(headers, order);
    EmissionShape(headers, e);
    PresentShape(headers, e);
    assert FieldSet(e) == headers.Keys;
  }

  lemma PresentStep(headers: HeaderMap, order: seq<byte>, i: nat)
    requires i < |order|
    ensures var before, after := Present(headers, order[..i]), Present(headers, order[..i + 1]);
            if order[i] in headers then
              after == before + [order[i]] && FieldSet(after) == FieldSet(before) + {order[i]}
            else after == before
  {
    assert order[..i + 1] == order[..i] + [order[i]];
    PresentAppend(headers, order[..i], order[i]);
  }

  lemma PresentUnseen(headers: HeaderMap, order: seq<byte>)
    ensures headers.Keys - FieldSet(Present(headers, order)) == headers.Keys - FieldSet(order)
    ensures Present(headers, []) == [] && FieldSet([]) == {}
  {
    PresentShape(headers, order);
  }

  /** The canonical order: message type, transaction ID and version lead, the rest ascend. */
  method CanonicalHeaderOrder(headers: HeaderMap) returns (order: seq<byte>)
    ensures order == Emission(headers, LeadingFields())
  {
    hide Present, FieldSet, Ascending;
    order := [];
    var seen: set<byte> := {};
    var leading := LeadingFields();
    PresentUnseen(headers, leading);
    var i := 0;
    while i < |leading|
      invariant 0 <= i <= |leading|
      invariant order == Present(headers, leading[..i])
      invariant seen == FieldSet(order)
    {
      PresentStep(headers, leading, i);
      if leading[i] in headers {
        order := order + [leading[i]];
        seen := seen + {leading[i]};
      }
      i := i + 1;
    }
    assert leading[..i] == leading;
    var tail := CollectUnseen(headers, seen);
    order := order + Sort(ByteLe, tail);
  }

  /** The fields not seen yet, in whatever order the map yields them. */
  method CollectUnseen(headers: HeaderMap, seen: set<byte>) returns (fields: seq<byte>)
    ensures Sort(ByteLe, fields) == Ascending(ByteLe, headers.Keys - seen)
  {
    fields := [];
    var left := headers.Keys;
    while left != {}
      invariant left <= headers.Keys
      invariant Enumerates(fields, headers.Keys - left - seen)
      decreases left
    {
      var field :| field in left;
      left := left - {field};
      if field in seen {
        assert headers.Keys - left - seen == headers.Keys - (left + {field}) - seen;
        continue;
      }
      assert (set f | f in fields + [field]) == (set f | f in fields) + {field};
      fields := fields + [field];
    }
    assert headers.Keys - left - seen == headers.Keys - seen;
    ByteOrder();
    SortedEnumeration(ByteLe, fields, headers.Keys - seen);
  }

  lemma {:induction false} PresentAppend(headers: HeaderMap, order: seq<byte>, field: byte)
    ensures Present(headers, order + [field]) ==
            if field in headers then Present(headers, order) + [field] else Present(headers, order)
  {
    hide NoDuplicates;
    if order != [] {
      assert (order + [field])[1..] == order[1..] + [field] && (order + [field])[0] == order[0];
      PresentAppend(headers, order[1..], field);
      var head := if order[0] in headers then [order[0]] else [];
      assert Present(headers, order + [field]) == head + Present(headers, order[1..] + [field]);
      ConcatAssociative(head, Present(headers, order[1..]), [field]);
    } else {
      assert (order + [field])[1..] == [];
    }
  }

  lemma {:induction false} SequenceAppend(headers: HeaderMap, fields: seq<byte>, more: seq<byte>)
    requires forall f | f in fields + more :: f in headers
    ensures forall f | f in fields || f in more :: f in headers
    ensures SequenceBytes(headers, fields + more) ==
            if SequenceBytes(headers, fields).Err? then SequenceBytes(headers, fields)
            else if SequenceBytes(headers, more).Err? then SequenceBytes(headers, more)
            else Ok(SequenceBytes(headers, fields).value + SequenceBytes(headers, more).value)
  {
    hide HeaderBytes;
    assert forall f | f in fields || f in more :: f in fields + more;
    if fields == [] {
      assert fields + more == more;
      if SequenceBytes(headers, more).Ok? {
        assert [] + SequenceBytes(headers, more).value == SequenceBytes(headers, more).value;
      }
    } else {
      assert (fields + more)[1..] == fields[1..] + more;
      SequenceAppend(headers, fields[1..], more);
      if SequenceBytes(headers, fields + more).Ok? {
        ConcatAssociative(HeaderBytes(fields[0], headers[fields[0]]), SequenceBytes(headers, fields[1..]).value,
                          SequenceBytes(headers, more).value);
      }
    }
  }

  /** The values of `fields`, one after another, on top of `front`. */
  method AppendHeaders(headers: HeaderMap, fields: seq<byte>, front: bytes) returns (r: Result<bytes>)
    requires forall f | f in fields :: f in headers
    ensures match SequenceBytes(headers, fields)
            case Ok(s) => r == Ok(front + s)
            case Err(e) => r == Err(e)
  {
    var out := front;
    var i := 0;
    while i < |fields|
      invariant 0 <= i <= |fields|
      invariant SequenceBytes(headers, fields[..i]).Ok? && out == front + SequenceBytes(headers, fields[..i]).value
    {
      SequenceStep(headers, fields, i, front);
      if headers[fields[i]].raw == [] {
        return Err(EmptyValue);
      }
      out := out + EncodeHeaderName(fields[i]);
      out := out + headers[fields[i]].raw;
      i := i + 1;
    }
    assert fields[..i] == fields;
    r := Ok(out);
  }

  lemma SequenceStep(headers: HeaderMap, fields: seq<byte>, i: nat, front: bytes)
    requires i < |fields| && forall f | f in fields :: f in headers
    requires SequenceBytes(headers, fields[..i]).Ok?
    ensures headers[fields[i]].raw == [] ==> SequenceBytes(headers, fields) == Err(EmptyValue)
    ensures headers[fields[i]].raw != [] ==>
              && SequenceBytes(headers, fields[..i + 1]).Ok?
              && front + SequenceBytes(headers, fields[..i + 1]).value ==
                 front + SequenceBytes(headers, fields[..i]).value
                 + EncodeHeaderName(fields[i]) + headers[fields[i]].raw
  {
    var field := fields[i];
    assert fields[..i + 1] == fields[..i] + [field];
    SequenceAppend(headers, fields[..i], [field]);
    assert [field][1..] == [];
    if headers[field].raw == [] {
      assert fields == fields[..i] + fields[i..];
      SequenceAppend(headers, fields[..i], fields[i..]);
    } else {
      var done := SequenceBytes(headers, fields[..i]).value;
      assert SequenceBytes(headers, [field]) == Ok(HeaderBytes(field, headers[field]) + []);
      assert HeaderBytes(field, headers[field]) + [] == HeaderBytes(field, headers[field]);
      ConcatAssociative(front, done, HeaderBytes(field, headers[field]));
      ConcatAssociative(front + done, EncodeHeaderName(field), headers[field].raw);
    }
  }

  /** The first emission loop: the listed fields that have a value. */
  method EmitListed(headers: HeaderMap, order: seq<byte>) returns (r: Result<bytes>, seen: set<byte>)
    ensures forall f | f in Present(headers, order) :: f in headers
    ensures r == SequenceBytes(headers, Present(headers, order))
    ensures r.Ok? ==> seen == FieldSet(Present(headers, order))
  {
    hide SequenceBytes, Present, FieldSet;
    PresentUnseen(headers, order);
    PresentShape(headers, order);
    SequenceOfNone(headers);
    var out: bytes := [];
    seen := {};
    var i := 0;
    while i < |order|
      invariant 0 <= i <= |order|
      invariant forall f | f in Present(headers, order[..i]) :: f in headers
      invariant seen == FieldSet(Present(headers, order[..i]))
      invariant SequenceBytes(headers, Present(headers, order[..i])) == Ok(out)
    {
      var field := order[i];
      PresentStep(headers, order, i);
      if field in headers {
        ListedStep(headers, order, i, out);
        if headers[field].raw == [] {
          r := Err(EmptyValue);
          return;
        }
        out := out + EncodeHeaderName(field);
        out := out + headers[field].raw;
        seen := seen + {field};
      }
      i := i + 1;
    }
    assert order[..i] == order;
    r := Ok(out);
  }

  /** A listed field that has a value sits right after the ones listed before it. */
  lemma PresentSplit(headers: HeaderMap, order: seq<byte>, i: nat)
    requires i < |order| && order[i] in headers
    ensures var front, whole := Present(headers, order[..i]), Present(headers, order);
            && |front| < |whole| && whole[|front|] == order[i]
            && whole[..|front|] == front && whole[..|front| + 1] == front + [order[i]]
            && Present(headers, order[..i + 1]) == front + [order[i]]
  {
    hide Present;
    PresentStep(headers, order, i);
    assert order == order[..i + 1] + order[i + 1..];
    PresentConcat(headers, order[..i + 1], order[i + 1..]);
  }

  lemma SequenceOfNone(headers: HeaderMap)
    ensures SequenceBytes(headers, []) == Ok([])
    ensures Present(headers, []) == []
  {
  }

  lemma ListedStep(headers: HeaderMap, order: seq<byte>, i: nat, out: bytes)
    requires i < |order| && order[i] in headers
    requires forall f | f in Present(headers, order[..i]) :: f in headers
    requires SequenceBytes(headers, Present(headers, order[..i])) == Ok(out)
    ensures forall f | f in Present(headers, order[..i + 1]) :: f in headers
    ensures forall f | f in Present(headers, order) :: f in headers
    ensures headers[order[i]].raw == [] ==> SequenceBytes(headers, Present(headers, order)) == Err(EmptyValue)
    ensures headers[order[i]].raw != [] ==>
              SequenceBytes(headers, Present(headers, order[..i + 1])) ==
              Ok(out + EncodeHeaderName(order[i]) + headers[order[i]].raw)
  {
    hide SequenceBytes, HeaderBytes, EncodeHeaderName, Present, NoDuplicates;
    var field := order[i];
    var front, whole := Present(headers, order[..i]), Present(headers, order);
    PresentSplit(headers, order, i);
    PresentShape(headers, order);
    SequenceStep(headers, whole, |front|, []);
    if headers[field].raw != [] {
      assert [] + out == out;
      var next := SequenceBytes(headers, front + [field]).value;
      assert [] + next == next;
    }
  }

  method EncodeHeadersBySequence(headers: HeaderMap, order: seq<byte>) returns (r: Result<bytes>)
    ensures (forall f | f in Emission(headers, order) :: f in headers)
    ensures r == SequenceBytes(headers, Emission(headers, order))
  {
    hide SequenceBytes, Ascending;
    EmissionShape(headers, order);
    PresentShape(headers, order);
    ghost var rest := headers.Keys - FieldSet(order);
    SequenceAppend(headers, Present(headers, order), Ascending(ByteLe, rest));
    var listed, seen := EmitListed(headers, order);
    if listed.Err? {
      return listed;
    }
    assert headers.Keys - seen == rest;
    if |seen| == |headers| {
      SubsetSameSize(seen, headers.Keys);
      return listed;
    }
    var remaining := CollectUnseen(headers, seen);
    r := AppendHeaders(headers, Sort(ByteLe, remaining), listed.value);
  }

  lemma SubsetSameSize(a: set<byte>, b: set<byte>)
    requires a <= b && |a| == |b|
    ensures a == b
  {
    assert |b - a| == 0;
  }

  lemma {:induction false} PresentConcat(headers: HeaderMap, a: seq<byte>, b: seq<byte>)
    ensures Present(headers, a + b) == Present(headers, a) + Present(headers, b)
  {
    if a == [] {
      assert a + b == b;
    } else {
      assert (a + b)[1..] == a[1..] + b;
      PresentConcat(headers, a[1..], b);
    }
  }

  lemma {:induction false} PresentOfNone(headers: HeaderMap, order: seq<byte>)
    requires forall f | f in order :: f !in headers
    ensures Present(headers, order) == []
  {
    if order != [] { PresentOfNone(headers, order[1..]); }
  }

  lemma EmissionOfNone(headers: HeaderMap, order: seq<byte>)
    requires headers == map[]
    ensures Emission(headers, order) == []
  {
    PresentOfNone(headers, order);
    assert headers.Keys - FieldSet(order) == {};
    ByteOrder();
    AscendingMembers(ByteLe, headers.Keys - FieldSet(order));
  }

  method EncodeOrderedHeaders(headers: HeaderMap, originalOrder: seq<byte>) returns (r: Result<bytes>)
    ensures (forall f | f in OrderedEmission(headers, originalOrder) :: f in headers)
    ensures r == SequenceBytes(headers, OrderedEmission(headers, originalOrder))
  {
    hide Emission;
    EmissionShape(headers, if originalOrder == [] then LeadingFields() else originalOrder);
    if |headers| == 0 {
      EmissionOfNone(headers, if originalOrder == [] then LeadingFields() else originalOrder);
      return Ok([]);
    }
    if |originalOrder| != 0 {
      r := EncodeHeadersBySequence(headers, originalOrder);
      return;
    }
    var order := CanonicalHeaderOrder(headers);
    EmissionStable(headers, LeadingFields());
    r := EncodeHeadersBySequence(headers, order);
  }

  // ---------------------------------------------------------------- encoding

  /** The header map that is written: the PDU's own, overridden by its three named fields. */
  function OverriddenHeaders(p: PDU): HeaderMap {
    var h0 := p.headers;
    var h1 := if p.messageType != 0
              then h0[FIELD_MESSAGE_TYPE := NewTokenValue(FIELD_MESSAGE_TYPE, p.messageType)] else h0;
    var h2 := if p.transactionID != []
              then h1[FIELD_TRANSACTION_ID := NewTextValue(FIELD_TRANSACTION_ID, p.transactionID)] else h1;
    if p.mmsVersion != []
    then h2[FIELD_MMS_VERSION := NewShortIntegerValue(FIELD_MMS_VERSION, EncodeVersion(p.mmsVersion))] else h2
  }

  ghost function NewContentTypeValue(v: ContentTypeValue): HeaderValue {
    HeaderValue(FIELD_CONTENT_TYPE, Octets, ContentTypeBytes(v))
  }

  ghost function MultipartRelated(): HeaderValue {
    NewContentTypeValue(ContentTypeValue(Ascii("multipart/related"), map[]))
  }

  /** With a body, a Content-Type is added when there is none. */
  ghost function MergedHeaders(p: PDU): HeaderMap {
    var headers := OverriddenHeaders(p);
    if p.body.Some? && FIELD_CONTENT_TYPE !in headers
    then headers[FIELD_CONTENT_TYPE := MultipartRelated()] else headers
  }

  /** Headers written ahead of the body. */
  function WithoutContentType(headers: HeaderMap): HeaderMap {
    headers - {FIELD_CONTENT_TYPE}
  }

  /** The fields in the order they are written. */
  ghost function WrittenOrder(p: PDU): seq<byte> {
    var headers := MergedHeaders(p);
    if p.body.None? then OrderedEmission(headers, p.headerOrder)
    else OrderedEmission(WithoutContentType(headers), p.headerOrder) + [FIELD_CONTENT_TYPE]
  }

  lemma OrderedEmissionFields(headers: HeaderMap, order: seq<byte>)
    ensures forall f :: f in OrderedEmission(headers, order) <==> f in headers
  {
    EmissionShape(headers, if order == [] then LeadingFields() else order);
  }

  ghost function EncodePDU(p: PDU): Result<bytes> {
    var headers := MergedHeaders(p);
    match p.body
    case None =>
      OrderedEmissionFields(headers, p.headerOrder);
      SequenceBytes(headers, OrderedEmission(headers, p.headerOrder))
    case Some(body) =>
      var front := WithoutContentType(headers);
      OrderedEmissionFields(front, p.headerOrder);
      var prefix :- SequenceBytes(front, OrderedEmission(front, p.headerOrder));
      Ok(prefix + HeaderBytes(FIELD_CONTENT_TYPE, headers[FIELD_CONTENT_TYPE]) + MultipartBytes(body))
  }

  /** Also returns the body as it was settled, like the encoder of bodies. */
  method EncodePDUWithBody(headers: HeaderMap, headerOrder: seq<byte>, body: MultipartBody)
    returns (r: Result<bytes>, ghost settled: MultipartBody)
    ensures Settles(body, settled)
    ensures AllCaseDistinct(body) ==> MultipartBytes(settled) == MultipartBytes(body)
    ensures FIELD_CONTENT_TYPE !in headers ==> r == Err(MissingContentType)
    ensures FIELD_CONTENT_TYPE in headers ==>
              var front := WithoutContentType(headers);
              && (forall f | f in OrderedEmission(front, headerOrder) :: f in front)
              && match SequenceBytes(front, OrderedEmission(front, headerOrder))
                 case Err(e) => r == Err(e)
                 case Ok(prefix) =>
                   r == Ok(prefix + HeaderBytes(FIELD_CONTENT_TYPE, headers[FIELD_CONTENT_TYPE])
                           + MultipartBytes(settled))
  {
    hide MultipartBytes, OrderedEmission, Settles;
    var bodyData;
    bodyData, settled := EncodeMultipart(body);
    if FIELD_CONTENT_TYPE !in headers {
      r := Err(MissingContentType);
      return;
    }
    var headerCopy: HeaderMap := map[];
    var left := headers.Keys;
    while left != {}
      invariant left <= headers.Keys
      invariant headerCopy == map f | f in headers && f !in left && f != FIELD_CONTENT_TYPE :: headers[f]
      decreases left
    {
      var field :| field in left;
      left := left - {field};
      if field == FIELD_CONTENT_TYPE {
        continue;
      }
      headerCopy := headerCopy[field := headers[field]];
    }
    assert headerCopy == WithoutContentType(headers);
    var prefix := EncodeOrderedHeaders(headerCopy, headerOrder);
    if prefix.Err? {
      r := Err(prefix.error);
      return;
    }
    var out := prefix.value;
    ConcatAssociative(out, EncodeHeaderName(FIELD_CONTENT_TYPE), headers[FIELD_CONTENT_TYPE].raw);
    out := out + EncodeHeaderName(FIELD_CONTENT_TYPE);
    out := out + headers[FIELD_CONTENT_TYPE].raw;
    out := out + bodyData;
    r := Ok(out);
  }

  /** `settled` is `p` with the body as one run of the encoder sees it. */
  ghost predicate SettlesPDU(p: PDU, settled: PDU) {
    && settled == p.(body := settled.body)
    && match p.body
       case None => settled.body.None?
       case Some(b) => settled.body.Some? && Settles(b, settled.body.value)
  }

  lemma SettledMerged(p: PDU, settled: PDU)
    requires SettlesPDU(p, settled)
    ensures MergedHeaders(settled) == MergedHeaders(p)
    ensures settled.headerOrder == p.headerOrder
  {
  }

  /** Also returns the PDU as the unspecified map iteration order settled its body. */
  method Encode(p: PDU) returns (r: Result<bytes>, ghost settled: PDU)
    ensures SettlesPDU(p, settled) && r == EncodePDU(settled)
    ensures (p.body.Some? ==> AllCaseDistinct(p.body.value)) ==> r == EncodePDU(p)
  {
    hide SequenceBytes, OrderedEmission, MultipartBytes, EncodeVersion, EncodeText, HeaderBytes, ContentTypeBytes,
      WithoutContentType, NewTokenValue, NewTextValue, NewShortIntegerValue;
    var headers := p.headers;
    if p.messageType != 0 {
      headers := headers[FIELD_MESSAGE_TYPE := NewTokenValue(FIELD_MESSAGE_TYPE, p.messageType)];
    }
    if p.transactionID != [] {
      headers := headers[FIELD_TRANSACTION_ID := NewTextValue(FIELD_TRANSACTION_ID, p.transactionID)];
    }
    if p.mmsVersion != [] {
      headers := headers[FIELD_MMS_VERSION := NewShortIntegerValue(FIELD_MMS_VERSION, EncodeVersion(p.mmsVersion))];
    }
    settled := p;
    if p.body.None? {
      r := EncodeOrderedHeaders(headers, p.headerOrder);
      return;
    }
    if FIELD_CONTENT_TYPE !in headers {
      var raw := EncodeContentTypeValue(ContentTypeValue(Ascii("multipart/related"), map[]));
      headers := headers[FIELD_CONTENT_TYPE := HeaderValue(FIELD_CONTENT_TYPE, Octets, raw)];
    }
    ghost var body;
    r, body := EncodePDUWithBody(headers, p.headerOrder, p.body.value);
    settled := p.(body := Some(body));
    SettledMerged(p, settled);
  }

  // ---------------------------------------------------------------- decoding

  datatype Sections = Sections(headers: HeaderMap, order: seq<byte>, body: Option<MultipartBody>)

  /** One header: its field and typed value. */
  function ParseHeader(s: bytes): (r: Result<Parsed<HeaderValue>>)
    ensures r.Ok? ==> |r.value.rest| < |s|
  {
    var name :- ParseHeaderName(s);
    var kind := KindForField(name.value);
    assert |name.rest| < |s|;
    var raw :- ParseHeaderValue(kind, name.rest);
    HeaderValueReparse(kind, name.rest, []);
    Ok(Parsed(HeaderValue(name.value, kind, raw.value), raw.rest))
  }

  function DecodeSections(s: bytes, headers: HeaderMap, order: seq<byte>): Result<Sections>
    decreases |s|
  {
    if s == [] then Ok(Sections(headers, order, None))
    else
      var h :- ParseHeader(s);
      var headers' := headers[h.value.field := h.value];
      var order' := order + [h.value.field];
      if h.value.field == FIELD_CONTENT_TYPE && h.rest != [] then
        var body :- DecodeBody(h.rest);
        Ok(Sections(headers', order', Some(body)))
      else DecodeSections(h.rest, headers', order')
  }

  function NamedFields(s: Sections): Result<PDU> {
    var messageType :- if FIELD_MESSAGE_TYPE in s.headers then s.headers[FIELD_MESSAGE_TYPE].GetToken() else Ok(0);
    var transactionID :-
      if FIELD_TRANSACTION_ID in s.headers then s.headers[FIELD_TRANSACTION_ID].GetText() else Ok([]);
    var mmsVersion :-
      if FIELD_MMS_VERSION in s.headers then
        var version :- s.headers[FIELD_MMS_VERSION].GetInteger();
        Ok(DecodeVersion(version % 256))
      else Ok([]);
    Ok(PDU(messageType, transactionID, mmsVersion, s.headers, s.order, s.body))
  }

  function DecodePDU(data: bytes): Result<PDU> {
    var sections :- DecodeSections(data, map[], []);
    NamedFields(sections)
  }

  method ReadHeader(reader: ByteReader) returns (r: Result<HeaderValue>)
    requires reader.Valid()
    modifies reader`pos
    ensures reader.Valid() && reader.Yields(ParseHeader(old(reader.Rest())), r)
    ensures old(reader.pos) <= reader.pos
  {
    hide ParseHeaderValue;
    var field := DecodeHeaderName(reader);
    if field.Err? {
      return Err(field.error);
    }
    var kind := KindForField(field.value);
    var raw := DecodeHeaderValue(reader, kind);
    if raw.Err? {
      return Err(raw.error);
    }
    r := Ok(HeaderValue(field.value, kind, raw.value));
  }

  method DecodePDUSections(data: bytes) returns (r: Result<Sections>)
    ensures r == DecodeSections(data, map[], [])
  {
    hide ParseHeader, DecodeBody;
    var reader := new ByteReader(data);
    var headers: HeaderMap := map[];
    var order: seq<byte> := [];
    while reader.Remaining() > 0
      invariant reader.Valid() && fresh(reader)
      invariant DecodeSections(reader.Rest(), headers, order) == DecodeSections(data, map[], [])
      decreases |reader.Rest()|
    {
      var h := ReadHeader(reader);
      if h.Err? {
        return Err(h.error);
      }
      headers := headers[h.value.field := h.value];
      order := order + [h.value.field];
      if h.value.field == FIELD_CONTENT_TYPE && reader.Remaining() > 0 {
        var body := DecodeMultipart(reader.data[reader.pos..]);
        if body.Ok? {
          return Ok(Sections(headers, order, Some(body.value)));
        }
        return Err(body.error);
      }
    }
    r := Ok(Sections(headers, order, None));
  }

  method Decode(data: bytes) returns (r: Result<PDU>)
    ensures r == DecodePDU(data)
  {
    hide DecodeSections;
    var sections := DecodePDUSections(data);
    if sections.Err? {
      return Err(sections.error);
    }
    var headers := sections.value.headers;
    var messageType, transactionID, mmsVersion := 0, [], [];
    if FIELD_MESSAGE_TYPE in headers {
      var token := headers[FIELD_MESSAGE_TYPE].GetToken();
      if token.Err? {
        return Err(token.error);
      }
      messageType := token.value;
    }
    if FIELD_TRANSACTION_ID in headers {
      var text := headers[FIELD_TRANSACTION_ID].GetText();
      if text.Err? {
        return Err(text.error);
      }
      transactionID := text.value;
    }
    if FIELD_MMS_VERSION in headers {
      var version := headers[FIELD_MMS_VERSION].GetInteger();
      if version.Err? {
        return Err(version.error);
      }
      mmsVersion := DecodeVersion(version.value % 256);
    }
    r := Ok(PDU(messageType, transactionID, mmsVersion, headers, sections.value.order, sections.value.body));
  }
}
