/**
 What a handset retrieves: the confirmation with the headers the handler adds
 (internal/mm1/handler_mt.go), from stored content to decoded parts.
 */
module Response {
  import opened Bytes
  import opened Fields
  import opened Headers
  import opened Multipart
  import opened MultipartLaws
  import opened Codec
  import opened CodecLaws
  import opened Retrieval
  import opened Notification

  const FIELD_DATE: byte := 0x05
  const FIELD_MESSAGE_ID: byte := 0x0B
  const FIELD_RESPONSE_STATUS: byte := 0x12
  const FIELD_TO: byte := 0x17

  const RESPONSE_STATUS_OK: byte := 0x80

  /** What the handler knows of the message it serves. */
  datatype Served = Served(
    transactionID: text, messageID: text, from: text, to: seq<text>, receivedAt: Option<uint64>, subject: text,
    parts: seq<Part>)

  /** One header the handler adds, or leaves out. */
  datatype Entry = Entry(field: byte, value: Option<HeaderValue>)

  function Put(headers: HeaderMap, e: Entry): HeaderMap {
    if e.value.Some? then headers[e.field := e.value.value] else headers
  }

  function PutEach(headers: HeaderMap, entries: seq<Entry>): HeaderMap {
    if entries == [] then headers
    else Put(PutEach(headers, entries[..|entries| - 1]), entries[|entries| - 1])
  }

  /** Status and sender always, the rest as far as it is known. */
  function Entries(m: Served): seq<Entry> {
    [Entry(FIELD_RESPONSE_STATUS, Some(NewTokenValue(FIELD_RESPONSE_STATUS, RESPONSE_STATUS_OK))),
     Entry(FIELD_MESSAGE_ID, if m.messageID != [] then Some(NewTextValue(FIELD_MESSAGE_ID, m.messageID)) else None),
     Entry(FIELD_FROM, Some(NewFromValue(SenderOf(m.from)))),
     Entry(FIELD_TO, if m.to != [] then Some(NewAddressValue(FIELD_TO, m.to[0])) else None),
     Entry(FIELD_DATE, if m.receivedAt.Some? then Some(NewDateValue(FIELD_DATE, m.receivedAt.value)) else None),
     Entry(FIELD_SUBJECT, if m.subject != [] then Some(NewEncodedStringValue(FIELD_SUBJECT, m.subject)) else None)]
  }

  ghost function RetrieveResponse(m: Served): PDU {
    var p := RetrieveConf(m.transactionID, m.parts);
    p.(headers := PutEach(p.headers, Entries(m)))
  }

  lemma PutStep(headers: HeaderMap, entries: seq<Entry>, i: nat)
    requires i < |entries|
    ensures PutEach(headers, entries[..i + 1]) == Put(PutEach(headers, entries[..i]), entries[i])
    ensures PutEach(headers, entries[..0]) == headers
  {
    assert entries[..i + 1][..i] == entries[..i];
  }

  /** The handler adds them one after another. */
  method ResponseFor(m: Served) returns (p: PDU)
    ensures p == RetrieveResponse(m)
  {
    hide NewTokenValue, NewTextValue, NewAddressValue, NewDateValue, NewEncodedStringValue, NewFromValue, RetrieveConf,
      Ascii, PutEach;
    p := NewRetrieveConf(m.transactionID, m.parts);
    ghost var own, entries := p.headers, Entries(m);
    forall i: nat | i < 6 ensures PutEach(own, entries[..i + 1]) == Put(PutEach(own, entries[..i]), entries[i]) {
      PutStep(own, entries, i);
    }
    PutStep(own, entries, 0);
    var headers: HeaderMap := p.headers;
    headers := headers[FIELD_RESPONSE_STATUS := NewTokenValue(FIELD_RESPONSE_STATUS, RESPONSE_STATUS_OK)];
    assert headers == PutEach(own, entries[..1]);
    if m.messageID != [] {
      headers := headers[FIELD_MESSAGE_ID := NewTextValue(FIELD_MESSAGE_ID, m.messageID)];
    }
    assert headers == PutEach(own, entries[..2]);
    var from := m.from;
    if from == [] {
      from := Ascii("#insert");
    }
    headers := headers[FIELD_FROM := NewFromValue(from)];
    assert headers == PutEach(own, entries[..3]);
    if |m.to| > 0 {
      headers := headers[FIELD_TO := NewAddressValue(FIELD_TO, m.to[0])];
    }
    assert headers == PutEach(own, entries[..4]);
    if m.receivedAt.Some? {
      headers := headers[FIELD_DATE := NewDateValue(FIELD_DATE, m.receivedAt.value)];
    }
    assert headers == PutEach(own, entries[..5]);
    if m.subject != [] {
      headers := headers[FIELD_SUBJECT := NewEncodedStringValue(FIELD_SUBJECT, m.subject)];
    }
    assert headers == PutEach(own, entries[..6]) && entries[..6] == entries;
    p := p.(headers := headers);
  }

  // ---------------------------------------------------------------- readable

  predicate Readable(headers: HeaderMap) {
    forall f | f in headers :: WellFormedHeader(f, headers[f].raw)
  }

  /** Entries for different fields that are not there yet. */
  predicate Apart(headers: HeaderMap, entries: seq<Entry>) {
    && (forall i | 0 <= i < |entries| :: entries[i].field !in headers)
    && (forall i, j | 0 <= i < j < |entries| :: entries[i].field != entries[j].field)
  }

  lemma {:induction false} PutEachReadable(headers: HeaderMap, entries: seq<Entry>)
    requires Apart(headers, entries)
    ensures Readable(PutEach(headers, entries)) <==>
            && Readable(headers)
            && forall i | 0 <= i < |entries| && entries[i].value.Some? ::
                 WellFormedHeader(entries[i].field, entries[i].value.value.raw)
    ensures forall f | f in PutEach(headers, entries) ::
              f in headers || exists i :: 0 <= i < |entries| && entries[i].field == f
  {
    hide WellFormedHeader;
    if entries != [] {
      var init, last := entries[..|entries| - 1], entries[|entries| - 1];
      PutEachReadable(headers, init);
      var before := PutEach(headers, init);
      assert last.field !in before;
      assert last.value.Some? ==> last.field in PutEach(headers, entries);
      assert forall f | f in before :: f in PutEach(headers, entries) && PutEach(headers, entries)[f] == before[f];
    }
  }

  /** Headers of other fields can be set before or after. */
  lemma {:induction false} PutEachUpdate(headers: HeaderMap, entries: seq<Entry>, field: byte, value: HeaderValue)
    requires forall i | 0 <= i < |entries| :: entries[i].field != field
    ensures PutEach(headers[field := value], entries) == PutEach(headers, entries)[field := value]
    ensures field in PutEach(headers, entries) <==> field in headers
  {
    if entries != [] { PutEachUpdate(headers, entries[..|entries| - 1], field, value); }
  }

  /** The named fields and the Content-Type are those of the bare confirmation. */
  lemma ResponseMerged(m: Served)
    ensures MergedHeaders(RetrieveResponse(m)) ==
            PutEach(MergedHeaders(RetrieveConf(m.transactionID, m.parts)), Entries(m))
  {
    hide NewTokenValue, NewTextValue, NewContentTypeValue, NewShortIntegerValue, EncodeVersion, Stripped, Ascii,
      PutEach, Entries, MultipartRelated;
    var p := RetrieveConf(m.transactionID, m.parts);
    var own: HeaderMap := p.headers;
    var h1: HeaderMap := if p.messageType != 0
                         then own[FIELD_MESSAGE_TYPE := NewTokenValue(FIELD_MESSAGE_TYPE, p.messageType)] else own;
    var h2: HeaderMap := if p.transactionID != []
                         then h1[FIELD_TRANSACTION_ID := NewTextValue(FIELD_TRANSACTION_ID, p.transactionID)] else h1;
    EntryFields(m);
    PutEachUpdate(own, Entries(m), FIELD_MESSAGE_TYPE, NewTokenValue(FIELD_MESSAGE_TYPE, p.messageType));
    PutEachUpdate(h1, Entries(m), FIELD_TRANSACTION_ID, NewTextValue(FIELD_TRANSACTION_ID, p.transactionID));
    PutEachUpdate(h2, Entries(m), FIELD_MMS_VERSION,
                  NewShortIntegerValue(FIELD_MMS_VERSION, EncodeVersion(p.mmsVersion)));
    PutEachUpdate(own, Entries(m), FIELD_CONTENT_TYPE, own[FIELD_CONTENT_TYPE]);
  }

  lemma EntryFields(m: Served)
    ensures forall i | 0 <= i < |Entries(m)| ::
              Entries(m)[i].field in {0x05, 0x09, 0x0B, 0x12, 0x16, 0x17}
    ensures forall i, j | 0 <= i < j < |Entries(m)| :: Entries(m)[i].field != Entries(m)[j].field
  {
    hide NewTokenValue, NewTextValue, NewAddressValue, NewDateValue, NewEncodedStringValue, NewFromValue, SenderOf;
  }

  /** No NUL in the strings that are written, and a sender that delimits itself. */
  predicate ReadableHeaders(m: Served) {
    && 0 !in m.transactionID && 0 !in m.messageID && 0 !in m.subject
    && (m.to != [] ==> 0 !in m.to[0])
    && FromDelimited(SenderOf(m.from))
  }

  lemma EntriesReadable(m: Served)
    requires 0 !in m.transactionID
    ensures (forall i | 0 <= i < |Entries(m)| && Entries(m)[i].value.Some? ::
               WellFormedHeader(Entries(m)[i].field, Entries(m)[i].value.value.raw)) <==> ReadableHeaders(m)
  {
    EntryValues(m);
    hide NewTextValue, NewAddressValue, NewDateValue, NewEncodedStringValue, NewFromValue, NewTokenValue,
      WellFormedHeader, SenderOf, FromDelimited;
    var e := Entries(m);
    assert |e| == 6 && e[0].field == FIELD_RESPONSE_STATUS && e[1].field == FIELD_MESSAGE_ID;
    assert e[2].field == FIELD_FROM && e[3].field == FIELD_TO && e[4].field == FIELD_DATE;
    assert e[5].field == FIELD_SUBJECT;
  }

  /** Field by field. */
  lemma EntryValues(m: Served)
    ensures WellFormedHeader(FIELD_RESPONSE_STATUS, NewTokenValue(FIELD_RESPONSE_STATUS, RESPONSE_STATUS_OK).raw)
    ensures WellFormedHeader(FIELD_MESSAGE_ID, NewTextValue(FIELD_MESSAGE_ID, m.messageID).raw) <==> 0 !in m.messageID
    ensures WellFormedHeader(FIELD_FROM, NewFromValue(SenderOf(m.from)).raw) <==> FromDelimited(SenderOf(m.from))
    ensures m.to != [] ==>
              (WellFormedHeader(FIELD_TO, NewAddressValue(FIELD_TO, m.to[0]).raw) <==> 0 !in m.to[0])
    ensures m.receivedAt.Some? ==> WellFormedHeader(FIELD_DATE, NewDateValue(FIELD_DATE, m.receivedAt.value).raw)
    ensures WellFormedHeader(FIELD_SUBJECT, NewEncodedStringValue(FIELD_SUBJECT, m.subject).raw) <==> 0 !in m.subject
  {
    hide NewTextValue, NewAddressValue, NewDateValue, NewEncodedStringValue, NewFromValue, NewTokenValue,
      SelfDelimiting, SenderOf, FromDelimited;
    TokenDelimits(FIELD_RESPONSE_STATUS, RESPONSE_STATUS_OK);
    TextDelimits(FIELD_MESSAGE_ID, m.messageID);
    TextDelimits(FIELD_SUBJECT, m.subject);
    FromDelimits(SenderOf(m.from));
    if m.to != [] { AddressDelimits(FIELD_TO, m.to[0]); }
    if m.receivedAt.Some? { IntegerDelimits(FIELD_DATE, m.receivedAt.value); }
  }

  /** What the bare confirmation has already. */
  lemma ConfirmationFields(transactionID: text, parts: seq<Part>)
    ensures MergedHeaders(RetrieveConf(transactionID, parts)).Keys ==
            {FIELD_MESSAGE_TYPE, FIELD_TRANSACTION_ID, FIELD_MMS_VERSION, FIELD_CONTENT_TYPE}
    ensures DecodeShortInteger(MergedHeaders(RetrieveConf(transactionID, parts))[FIELD_MMS_VERSION].raw).Ok?
  {
    hide NewTokenValue, NewTextValue, NewContentTypeValue, EncodeVersion, Stripped, DecodeShortInteger,
      NewShortIntegerValue;
    assert Ascii("1.3") != [];
    VersionDecodes();
  }

  lemma VersionKept(m: Served)
    ensures var own, all := MergedHeaders(RetrieveConf(m.transactionID, m.parts)), MergedHeaders(RetrieveResponse(m));
            && (WellFormedHeaders(own) <==> Readable(own))
            && (WellFormedHeaders(all) <==> Readable(all))
            && Apart(own, Entries(m))
  {
    ResponseMerged(m);
    ConfirmationFields(m.transactionID, m.parts);
    EntryFields(m);
    hide MergedHeaders, RetrieveResponse, RetrieveConf, PutEach, Entries, WellFormedHeader, DecodeShortInteger;
    var own := MergedHeaders(RetrieveConf(m.transactionID, m.parts));
    PutEachUpdate(own, Entries(m), FIELD_MMS_VERSION, own[FIELD_MMS_VERSION]);
    assert own[FIELD_MMS_VERSION := own[FIELD_MMS_VERSION]] == own;
  }

  /** The response can be read back exactly when its headers are readable and its parts can be framed. */
  lemma ResponseWellFormed(m: Served)
    ensures WellFormed(RetrieveResponse(m)) <==> ReadableHeaders(m) && EncodableBody(MultipartBody(Stripped(m.parts)))
  {
    assert RetrieveResponse(m).body == Some(MultipartBody(Stripped(m.parts)));
    RetrieveConfWellFormed(m.transactionID, m.parts);
    hide MergedHeaders, RetrieveResponse, RetrieveConf, PutEach, Entries, WellFormedHeaders, Readable, Apart,
      EncodableBody, Stripped, WellFormedHeader, FromDelimited;
    VersionKept(m);
    ResponseMerged(m);
    PutEachReadable(MergedHeaders(RetrieveConf(m.transactionID, m.parts)), Entries(m));
    if 0 !in m.transactionID { EntriesReadable(m); }
  }

  // ---------------------------------------------------------------- read back

  /** Every entry has its value afterwards, and nothing else has changed. */
  lemma {:induction false} PutEachAt(headers: HeaderMap, entries: seq<Entry>)
    requires Apart(headers, entries)
    ensures var r := PutEach(headers, entries);
            && (forall i | 0 <= i < |entries| :: entries[i].field in r <==> entries[i].value.Some?)
            && (forall i | 0 <= i < |entries| && entries[i].value.Some? ::
                 r[entries[i].field] == entries[i].value.value)
            && (forall f | f in headers :: f in r && r[f] == headers[f])
            && forall f | f in r :: f in headers || exists i :: 0 <= i < |entries| && entries[i].field == f
  {
    if entries != [] {
      var init, last := entries[..|entries| - 1], entries[|entries| - 1];
      PutEachAt(headers, init);
      var before, r := PutEach(headers, init), PutEach(headers, entries);
      assert last.field !in before;
      forall i | 0 <= i < |entries|
        ensures entries[i].field in r <==> entries[i].value.Some?
        ensures entries[i].value.Some? ==> r[entries[i].field] == entries[i].value.value
      {
        if i < |init| { assert init[i] == entries[i]; }
      }
    }
  }

  /** The fields of a response. */
  function ResponseFields(m: Served): set<byte> {
    {FIELD_MESSAGE_TYPE, FIELD_TRANSACTION_ID, FIELD_MMS_VERSION, FIELD_CONTENT_TYPE, FIELD_RESPONSE_STATUS, FIELD_FROM}
    + (if m.messageID != [] then {FIELD_MESSAGE_ID} else {})
    + (if m.to != [] then {FIELD_TO} else {})
    + (if m.receivedAt.Some? then {FIELD_DATE} else {})
    + (if m.subject != [] then {FIELD_SUBJECT} else {})
  }

  /** What a handset makes of the headers: every field, and whether it is what was meant. */
  ghost predicate ReadsAs(got: PDU, m: Served) {
    && got.messageType == 0x84
    && got.transactionID == m.transactionID
    && got.mmsVersion == Ascii("1.3")
    && got.headers.Keys ==
         {0x0C, 0x18, 0x0D, 0x04, 0x12, 0x09} + (if m.messageID != [] then {0x0B} else {})
         + (if m.to != [] then {0x17} else {}) + (if m.receivedAt.Some? then {0x05} else {})
         + (if m.subject != [] then {0x16} else {})
    && got.headers[0x12].GetToken() == Ok(0x80)
    && (m.messageID != [] ==> got.headers[0x0B].GetText() == Ok(m.messageID))
    && (m.to != [] ==> got.headers[0x17].GetText() == Ok(NormalizeAddress(m.to[0])))
    && (m.receivedAt.Some? ==>
          (got.headers[0x05].GetInteger() == Ok(m.receivedAt.value) <==> !LooksLikeDateToken(m.receivedAt.value)))
    && (m.subject != [] ==> got.headers[0x16].GetText() == Ok(m.subject))
    && var sender := got.headers[0x09].GetText();
       if m.from in {[], Ascii("#insert")} then sender == Err(InsertAddress)
       else sender == Ok(NormalizeAddress(m.from)) <==> 0 !in m.from && FromLengthRecoverable(m.from)
  }

  /** Entry by entry: the field and kind are those the decoder gives. */
  lemma EntriesTyped(m: Served)
    ensures forall i | 0 <= i < |Entries(m)| && Entries(m)[i].value.Some? ::
              Entries(m)[i].value.value.field == Entries(m)[i].field
              && Entries(m)[i].value.value.kind == KindForField(Entries(m)[i].field)
  {
    hide NormalizeAddress, EncodeText, LongInteger, SenderOf, Ascii, FromPayload;
  }

  /** What is written, header by header. */
  lemma ResponseValues(m: Served)
    ensures var h := MergedHeaders(RetrieveResponse(m));
            var own := MergedHeaders(RetrieveConf(m.transactionID, m.parts));
            && (forall i | 0 <= i < |Entries(m)| :: Entries(m)[i].field in h <==> Entries(m)[i].value.Some?)
            && (forall i | 0 <= i < |Entries(m)| && Entries(m)[i].value.Some? ::
                  h[Entries(m)[i].field] == Entries(m)[i].value.value)
            && (forall f | f in own :: f in h && h[f] == own[f])
            && forall f | f in h :: f in own || exists i :: 0 <= i < |Entries(m)| && Entries(m)[i].field == f
  {
    ResponseMerged(m);
    VersionKept(m);
    hide MergedHeaders, RetrieveResponse, RetrieveConf, PutEach, Entries, Apart;
    PutEachAt(MergedHeaders(RetrieveConf(m.transactionID, m.parts)), Entries(m));
  }

  /** The named values of the bare confirmation. */
  lemma ConfirmationNamed(transactionID: text, parts: seq<Part>)
    requires 0 !in transactionID
    ensures var h := MergedHeaders(RetrieveConf(transactionID, parts));
            && h[FIELD_MESSAGE_TYPE] == NewTokenValue(FIELD_MESSAGE_TYPE, MSG_TYPE_RETRIEVE_CONF)
            && h[FIELD_TRANSACTION_ID] == NewTextValue(FIELD_TRANSACTION_ID, transactionID)
            && h[FIELD_MMS_VERSION] == NewShortIntegerValue(FIELD_MMS_VERSION, 0x13)
  {
    Version13();
    hide NewTokenValue, NewTextValue, NewContentTypeValue, EncodeVersion, Stripped, NewShortIntegerValue, Ascii;
  }

  lemma EntryReads(m: Served)
    requires ReadableHeaders(m)
    ensures NewTokenValue(FIELD_RESPONSE_STATUS, RESPONSE_STATUS_OK).GetToken() == Ok(RESPONSE_STATUS_OK)
    ensures NewTextValue(FIELD_MESSAGE_ID, m.messageID).GetText() == Ok(m.messageID)
    ensures m.to != [] ==> NewAddressValue(FIELD_TO, m.to[0]).GetText() == Ok(NormalizeAddress(m.to[0]))
    ensures m.receivedAt.Some? ==>
              (NewDateValue(FIELD_DATE, m.receivedAt.value).GetInteger() == Ok(m.receivedAt.value) <==>
               !LooksLikeDateToken(m.receivedAt.value))
    ensures m.subject != [] ==> NewEncodedStringValue(FIELD_SUBJECT, m.subject).GetText() == Ok(m.subject)
    ensures var sender := NewFromValue(SenderOf(m.from)).GetText();
            if SenderOf(m.from) == Ascii("#insert") then sender == Err(InsertAddress)
            else sender == Ok(NormalizeAddress(m.from)) <==> 0 !in m.from && FromLengthRecoverable(m.from)
  {
    hide EncodeText, DecodeText, NewFromValue, NewDateValue, LooksLikeDateToken, FromLengthRecoverable,
        NormalizeAddress,
      FromDelimited, DecodeEncodedString, DecodeAddressString;
    TextRoundTrip(m.messageID);
    EncodedStringRoundTrip(m.subject);
    if m.to != [] { AddressAccessor(FIELD_TO, m.to[0]); }
    if m.receivedAt.Some? { DateAccessor(FIELD_DATE, m.receivedAt.value); }
    FromAccessor(SenderOf(m.from));
  }

  lemma NamedOf(h: HeaderMap, transactionID: text)
    requires 0 !in transactionID && {FIELD_MESSAGE_TYPE, FIELD_TRANSACTION_ID, FIELD_MMS_VERSION} <= h.Keys
    requires h[FIELD_MESSAGE_TYPE] == NewTokenValue(FIELD_MESSAGE_TYPE, MSG_TYPE_RETRIEVE_CONF)
    requires h[FIELD_TRANSACTION_ID] == NewTextValue(FIELD_TRANSACTION_ID, transactionID)
    requires h[FIELD_MMS_VERSION] == NewShortIntegerValue(FIELD_MMS_VERSION, 0x13)
    ensures TypeIn(h) == MSG_TYPE_RETRIEVE_CONF && TransactionIn(h) == transactionID && VersionIn(h) == Ascii("1.3")
  {
    hide EncodeText, DecodeText;
    TextRoundTrip(transactionID);
    assert DecodeShortInteger(NewShortIntegerValue(FIELD_MMS_VERSION, 0x13).raw) == Ok(0x13);
  }

  /** The named fields, as they are read. */
  lemma NamedRead(m: Served)
    requires 0 !in m.transactionID
    ensures var h := MergedHeaders(RetrieveResponse(m));
            && TypeIn(h) == MSG_TYPE_RETRIEVE_CONF && TransactionIn(h) == m.transactionID
                 && VersionIn(h) == Ascii("1.3")
  {
    ResponseValues(m);
    ConfirmationNamed(m.transactionID, m.parts);
    ConfirmationFields(m.transactionID, m.parts);
    hide *;
    NamedOf(MergedHeaders(RetrieveResponse(m)), m.transactionID);
  }

  lemma ResponseTyped(m: Served)
    ensures var h := MergedHeaders(RetrieveResponse(m));
            && h.Keys == ResponseFields(m)
            && forall i | 0 <= i < |Entries(m)| && Entries(m)[i].value.Some? ::
                 Entries(m)[i].field in h && Typed(h)[Entries(m)[i].field] == Entries(m)[i].value.value
  {
    ResponseValues(m);
    ConfirmationFields(m.transactionID, m.parts);
    EntriesTyped(m);
    hide MergedHeaders, RetrieveResponse, RetrieveConf, KindForField, NewTokenValue, NewTextValue, NewAddressValue,
      NewDateValue, NewEncodedStringValue, NewFromValue, SenderOf;
    var h := MergedHeaders(RetrieveResponse(m));
    var e := Entries(m);
    assert |e| == 6 && e[0].field == FIELD_RESPONSE_STATUS && e[1].field == FIELD_MESSAGE_ID;
    assert e[2].field == FIELD_FROM && e[3].field == FIELD_TO && e[4].field == FIELD_DATE;
    assert e[5].field == FIELD_SUBJECT;
  }

  /** Field by field, as they are read. */
  lemma ResponseTypedAt(m: Served)
    ensures var t := Typed(MergedHeaders(RetrieveResponse(m)));
            && t.Keys == ResponseFields(m)
            && t[FIELD_RESPONSE_STATUS] == NewTokenValue(FIELD_RESPONSE_STATUS, RESPONSE_STATUS_OK)
            && t[FIELD_FROM] == NewFromValue(SenderOf(m.from))
            && (m.messageID != [] ==> t[FIELD_MESSAGE_ID] == NewTextValue(FIELD_MESSAGE_ID, m.messageID))
            && (m.to != [] ==> t[FIELD_TO] == NewAddressValue(FIELD_TO, m.to[0]))
            && (m.receivedAt.Some? ==> t[FIELD_DATE] == NewDateValue(FIELD_DATE, m.receivedAt.value))
            && (m.subject != [] ==> t[FIELD_SUBJECT] == NewEncodedStringValue(FIELD_SUBJECT, m.subject))
  {
    ResponseTyped(m);
    TransactionPresent(MergedHeaders(RetrieveResponse(m)));
    hide MergedHeaders, RetrieveResponse, Typed, NewTokenValue, NewTextValue, NewAddressValue, NewDateValue,
      NewEncodedStringValue, NewFromValue, SenderOf;
    var e := Entries(m);
    assert |e| == 6 && e[0].field == FIELD_RESPONSE_STATUS && e[1].field == FIELD_MESSAGE_ID;
    assert e[2].field == FIELD_FROM && e[3].field == FIELD_TO && e[4].field == FIELD_DATE;
    assert e[5].field == FIELD_SUBJECT;
  }

  /** The headers of a response that is read back are read as they were meant. */
  lemma ResponseRead(m: Served)
    requires ReadableHeaders(m)
    ensures ReadsAs(Canonical(RetrieveResponse(m)), m)
  {
    NamedRead(m);
    ResponseTypedAt(m);
    EntryReads(m);
    hide MergedHeaders, RetrieveResponse, Entries, Typed, TypeIn, TransactionIn, VersionIn, WrittenOrder,
      NewTokenValue, NewTextValue, NewAddressValue, NewDateValue, NewEncodedStringValue, NewFromValue, SenderOf,
      LooksLikeDateToken, FromLengthRecoverable, NormalizeAddress, ReadableHeaders, NormalBody;
  }

  /**
   The whole way. Parts that can be framed are loaded restored when the transaction ID has no NUL.
   From restored parts the handset decodes what the handler meant exactly when the headers are
   readable and what is left of the parts can be framed. Then it reads every header, and gets every
   surviving part exactly when the types of none or of all of them trim to SMIL.
   */
  lemma StoreThenRetrieve(parts: seq<MessagePart>, path: text, contents: map<text, bytes>, m: Served)
    requires parts != [] && path != []
    ensures StoredBytes(m.transactionID, parts).Ok?
    ensures var loaded := LoadedParts([], path, contents[path := StoredBytes(m.transactionID, parts).value]);
            0 !in m.transactionID && EncodableBody(MultipartBody(ToPDUParts(Surviving(parts)))) ==>
              loaded == Ok(ToPDUParts(AllRestored(Surviving(parts))))
              && EncodableBody(MultipartBody(Stripped(ToPDUParts(AllRestored(Surviving(parts))))))
    ensures m.parts == ToPDUParts(AllRestored(Surviving(parts))) ==>
              var served, kept := RetrieveResponse(m), Surviving(parts);
              var meant := ReadableHeaders(m) && EncodableBody(MultipartBody(Stripped(m.parts)));
              && (EncodePDU(served).Ok? && DecodePDU(EncodePDU(served).value) == Ok(Canonical(served)) <==> meant)
              && (meant ==>
                    var got := DecodePDU(EncodePDU(served).value).value;
                    && ReadsAs(got, m)
                    && got.body.Some?
                    && (ToMessageParts(got.body.value.parts) == AllRestored(kept) <==>
                          (forall p | p in kept :: !TrimsToSmil(p)) || (forall p | p in kept :: TrimsToSmil(p))))
  {
    var kept := Surviving(parts);
    StoreThenLoad(m.transactionID, parts, path, contents);
    if EncodableBody(MultipartBody(ToPDUParts(kept))) { LoadedServable(kept); }
    assert RetrieveResponse(m).body == Some(MultipartBody(Stripped(m.parts)));
    hide Surviving, EncodePDU, DecodePDU, WellFormed, EncodableBody, Stripped, AllRestored, TrimsToSmil, ToPDUParts,
      ToMessageParts, StoredBytes, LoadedParts, ReadableHeaders, RetrieveResponse, Canonical, ReadsAs;
    if m.parts == ToPDUParts(AllRestored(kept)) {
      ResponseWellFormed(m);
      PDUExact(RetrieveResponse(m));
      ServedDecodes(kept, RetrieveResponse(m));
      ServedExactly(kept);
      if ReadableHeaders(m) { ResponseRead(m); }
    }
  }
}
