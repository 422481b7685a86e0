/**
 The PDUs of the notification exchange, byte for byte:
 internal/mmspdu/pdu_notify.go.
 */
module Notification {
  import opened Bytes
  import opened Sorting
  import opened Fields
  import opened Headers
  import opened Codec
  import opened CodecLaws

  const MSG_TYPE_NOTIFICATION_IND: byte := 0x82
  const MSG_TYPE_NOTIFY_RESP_IND: byte := 0x83

  const FIELD_CONTENT_LOCATION: byte := 0x03
  const FIELD_EXPIRY: byte := 0x08
  const FIELD_MESSAGE_CLASS: byte := 0x0A
  const FIELD_MESSAGE_SIZE: byte := 0x0E
  const FIELD_PRIORITY: byte := 0x0F
  const FIELD_STATUS: byte := 0x15
  const FIELD_SUBJECT: byte := 0x16

  /** Fields a notification may have between the leading ones and Content-Location. */
  function OptionalFields(): seq<byte> {
    [FIELD_FROM, FIELD_SUBJECT, FIELD_MESSAGE_CLASS, FIELD_PRIORITY, FIELD_MESSAGE_SIZE, FIELD_EXPIRY]
  }

  function NotificationOrder(): seq<byte> {
    LeadingFields() + OptionalFields() + [FIELD_CONTENT_LOCATION]
  }

  function NewNotificationInd(transactionID: text, contentLocation: text): PDU {
    PDU(MSG_TYPE_NOTIFICATION_IND, transactionID, Ascii("1.3"),
        map[FIELD_TRANSACTION_ID := NewTextValue(FIELD_TRANSACTION_ID, transactionID),
            FIELD_CONTENT_LOCATION := NewTextValue(FIELD_CONTENT_LOCATION, contentLocation)],
        NotificationOrder(), None)
  }

  function NewNotifyRespInd(transactionID: text, status: byte): PDU {
    PDU(MSG_TYPE_NOTIFY_RESP_IND, transactionID, Ascii("1.3"),
        map[FIELD_TRANSACTION_ID := NewTextValue(FIELD_TRANSACTION_ID, transactionID),
            FIELD_STATUS := NewTokenValue(FIELD_STATUS, status)],
        [], None)
  }

  lemma PresentOne(headers: HeaderMap, field: byte)
    ensures Present(headers, [field]) == if field in headers then [field] else []
  {
    assert [field][1..] == [];
  }

  lemma Version13()
    ensures Ascii("1.3") != [] && EncodeVersion(Ascii("1.3")) == 0x13
  {
    assert Ascii("1.3")[2] == 0x33 && Ascii("1.2")[2] == 0x32 && Ascii("1.1")[2] == 0x31 && Ascii("1.0")[2] == 0x30;
  }

  lemma NotificationEmission(headers: HeaderMap)
    requires headers.Keys <= FieldSet(NotificationOrder()) && FIELD_CONTENT_LOCATION in headers
    ensures OrderedEmission(headers, NotificationOrder()) ==
            Present(headers, LeadingFields()) + Present(headers, OptionalFields()) + [FIELD_CONTENT_LOCATION]
  {
    EmissionShape(headers, NotificationOrder());
    assert NotificationOrder() != [];
    hide Emission, LeadingFields, OptionalFields, Present;
    PresentConcat(headers, LeadingFields() + OptionalFields(), [FIELD_CONTENT_LOCATION]);
    PresentConcat(headers, LeadingFields(), OptionalFields());
    PresentOne(headers, FIELD_CONTENT_LOCATION);
  }

  lemma LocationApart(headers: HeaderMap)
    ensures FIELD_CONTENT_LOCATION !in Present(headers, LeadingFields()) + Present(headers, OptionalFields())
  {
    PresentShape(headers, LeadingFields());
    PresentShape(headers, OptionalFields());
    hide Present;
    assert FIELD_CONTENT_LOCATION !in LeadingFields() && FIELD_CONTENT_LOCATION !in OptionalFields();
  }

  lemma FieldsListed()
    ensures NotificationOrder() == [0x0C, 0x18, 0x0D, 0x09, 0x16, 0x0A, 0x0F, 0x0E, 0x08, 0x03]
  {
  }

  /**
   Content-Location is written last, and only there, whatever other fields the notification has:
   type, transaction ID, version, sender, subject, class, priority, size and expiry come first.
   */
  lemma ContentLocationLast(headers: HeaderMap)
    requires headers.Keys <= FieldSet(NotificationOrder()) && FIELD_CONTENT_LOCATION in headers
    ensures NotificationOrder() == [0x0C, 0x18, 0x0D, 0x09, 0x16, 0x0A, 0x0F, 0x0E, 0x08, 0x03]
    ensures var order := OrderedEmission(headers, NotificationOrder());
            && order != [] && order[|order| - 1] == FIELD_CONTENT_LOCATION
            && forall i | 0 <= i < |order| - 1 :: order[i] != FIELD_CONTENT_LOCATION
  {
    hide *;
    FieldsListed();
    NotificationEmission(headers);
    LocationApart(headers);
    var order := OrderedEmission(headers, NotificationOrder());
    var front := Present(headers, LeadingFields()) + Present(headers, OptionalFields());
    assert order == front + [FIELD_CONTENT_LOCATION];
    assert forall i | 0 <= i < |front| :: front[i] in front;
  }

  ghost function NotificationMap(transactionID: text, contentLocation: text): HeaderMap {
    map[FIELD_MESSAGE_TYPE := NewTokenValue(FIELD_MESSAGE_TYPE, MSG_TYPE_NOTIFICATION_IND),
        FIELD_TRANSACTION_ID := NewTextValue(FIELD_TRANSACTION_ID, transactionID),
        FIELD_MMS_VERSION := NewShortIntegerValue(FIELD_MMS_VERSION, 0x13),
        FIELD_CONTENT_LOCATION := NewTextValue(FIELD_CONTENT_LOCATION, contentLocation)]
  }

  lemma NotificationHeaders(transactionID: text, contentLocation: text)
    ensures MergedHeaders(NewNotificationInd(transactionID, contentLocation)) ==
            NotificationMap(transactionID, contentLocation)
  {
    hide NewTextValue, NewTokenValue, EncodeVersion, NotificationOrder;
    Version13();
  }

  lemma MandatoryListed()
    ensures {FIELD_MESSAGE_TYPE, FIELD_TRANSACTION_ID, FIELD_MMS_VERSION, FIELD_CONTENT_LOCATION} <=
            FieldSet(NotificationOrder())
  {
    hide OptionalFields;
    var order := NotificationOrder();
    assert order[..3] == LeadingFields() && order[0] == FIELD_MESSAGE_TYPE && order[1] == FIELD_TRANSACTION_ID;
    assert order[2] == FIELD_MMS_VERSION && order[|order| - 1] == FIELD_CONTENT_LOCATION;
  }

  lemma MandatoryPresent(headers: HeaderMap)
    requires headers.Keys == {FIELD_MESSAGE_TYPE, FIELD_TRANSACTION_ID, FIELD_MMS_VERSION, FIELD_CONTENT_LOCATION}
    ensures Present(headers, LeadingFields()) == LeadingFields()
    ensures Present(headers, OptionalFields()) == []
  {
    PresentShape(headers, LeadingFields());
    PresentOfNone(headers, OptionalFields());
  }

  lemma NotificationFields(headers: HeaderMap)
    requires headers.Keys == {FIELD_MESSAGE_TYPE, FIELD_TRANSACTION_ID, FIELD_MMS_VERSION, FIELD_CONTENT_LOCATION}
    ensures OrderedEmission(headers, NotificationOrder()) ==
            [FIELD_MESSAGE_TYPE, FIELD_TRANSACTION_ID, FIELD_MMS_VERSION, FIELD_CONTENT_LOCATION]
  {
    MandatoryListed();
    MandatoryPresent(headers);
    hide Present, OrderedEmission, NotificationOrder, OptionalFields, FieldSet;
    NotificationEmission(headers);
  }

  lemma FourHeaders(headers: HeaderMap, order: seq<byte>)
    requires |order| == 4 && forall f | f in order :: f in headers && headers[f].raw != []
    ensures SequenceBytes(headers, order) ==
            Ok(HeaderBytes(order[0], headers[order[0]]) + (HeaderBytes(order[1], headers[order[1]])
               + (HeaderBytes(order[2], headers[order[2]]) + HeaderBytes(order[3], headers[order[3]]))))
  {
    hide HeaderBytes;
    assert order[1..][1..] == order[2..] && order[2..][1..] == order[3..] && order[3..][1..] == [];
    var last := HeaderBytes(order[3], headers[order[3]]);
    assert last + [] == last;
    assert SequenceBytes(headers, order[3..]) == Ok(last);
    assert SequenceBytes(headers, order[2..]) == Ok(HeaderBytes(order[2], headers[order[2]]) + last);
    assert SequenceBytes(headers, order[1..]).Ok?;
  }

  lemma Joined(t: bytes, c: bytes)
    ensures [0x8C, 0x82] + ([0x98] + t + ([0x8D, 0x93] + ([0x83] + c))) ==
            [0x8C, 0x82, 0x98] + t + [0x8D, 0x93, 0x83] + c
  {
  }

  /** The bytes of a notification, for every transaction ID and location. */
  lemma NotificationBytes(transactionID: text, contentLocation: text)
    ensures EncodePDU(NewNotificationInd(transactionID, contentLocation)) ==
            Ok([0x8C, 0x82, 0x98] + EncodeText(transactionID) + [0x8D, 0x93, 0x83] + EncodeText(contentLocation))
  {
    NotificationHeaders(transactionID, contentLocation);
    NotificationFields(NotificationMap(transactionID, contentLocation));
    NotificationPieces(transactionID, contentLocation);
    hide MergedHeaders, OrderedEmission, NotificationOrder, NotificationMap, HeaderBytes, EncodeText;
    var headers := NotificationMap(transactionID, contentLocation);
    FourHeaders(headers, [FIELD_MESSAGE_TYPE, FIELD_TRANSACTION_ID, FIELD_MMS_VERSION, FIELD_CONTENT_LOCATION]);
    Joined(EncodeText(transactionID), EncodeText(contentLocation));
  }

  lemma NotificationPieces(transactionID: text, contentLocation: text)
    ensures var headers := NotificationMap(transactionID, contentLocation);
            && headers.Keys == {FIELD_MESSAGE_TYPE, FIELD_TRANSACTION_ID, FIELD_MMS_VERSION, FIELD_CONTENT_LOCATION}
            && (forall f | f in headers :: headers[f].raw != [])
            && HeaderBytes(FIELD_MESSAGE_TYPE, headers[FIELD_MESSAGE_TYPE]) == [0x8C, 0x82]
            && HeaderBytes(FIELD_TRANSACTION_ID, headers[FIELD_TRANSACTION_ID]) == [0x98] + EncodeText(transactionID)
            && HeaderBytes(FIELD_MMS_VERSION, headers[FIELD_MMS_VERSION]) == [0x8D, 0x93]
            && HeaderBytes(FIELD_CONTENT_LOCATION, headers[FIELD_CONTENT_LOCATION]) ==
                 [0x83] + EncodeText(contentLocation)
  {
    hide Escaped;
  }

  lemma MapWellFormed(transactionID: text, contentLocation: text)
    ensures WellFormedHeaders(NotificationMap(transactionID, contentLocation)) <==>
            0 !in transactionID && 0 !in contentLocation
  {
    hide NewTextValue, SelfDelimiting, NewTokenValue, NewShortIntegerValue, DecodeShortInteger;
    NamedKinds();
    TextDelimits(FIELD_TRANSACTION_ID, transactionID);
    TextDelimits(FIELD_CONTENT_LOCATION, contentLocation);
    TokenDelimits(FIELD_MESSAGE_TYPE, MSG_TYPE_NOTIFICATION_IND);
    TokenDelimits(FIELD_MMS_VERSION, 0x13);
    ShortIntegerReads();
    var headers := NotificationMap(transactionID, contentLocation);
    assert WellFormedHeader(FIELD_TRANSACTION_ID, headers[FIELD_TRANSACTION_ID].raw) <==> 0 !in transactionID;
    assert WellFormedHeader(FIELD_CONTENT_LOCATION, headers[FIELD_CONTENT_LOCATION].raw) <==> 0 !in contentLocation;
  }

  /** A notification can be read back exactly when its strings have no NUL. */
  lemma NotificationWellFormed(transactionID: text, contentLocation: text)
    ensures WellFormed(NewNotificationInd(transactionID, contentLocation)) <==>
            0 !in transactionID && 0 !in contentLocation
  {
    NotificationHeaders(transactionID, contentLocation);
    MapWellFormed(transactionID, contentLocation);
    hide MergedHeaders, OrderedEmission, NotificationOrder, NewTextValue, WellFormedHeaders;
    NotificationFields(NotificationMap(transactionID, contentLocation));
  }

  lemma ShortIntegerReads()
    ensures DecodeShortInteger(NewShortIntegerValue(FIELD_MMS_VERSION, 0x13).raw).Ok?
  {
  }

  ghost function NotifyRespMap(transactionID: text, status: byte): HeaderMap {
    map[FIELD_MESSAGE_TYPE := NewTokenValue(FIELD_MESSAGE_TYPE, MSG_TYPE_NOTIFY_RESP_IND),
        FIELD_TRANSACTION_ID := NewTextValue(FIELD_TRANSACTION_ID, transactionID),
        FIELD_MMS_VERSION := NewShortIntegerValue(FIELD_MMS_VERSION, 0x13),
        FIELD_STATUS := NewTokenValue(FIELD_STATUS, status)]
  }

  lemma NotifyRespHeaders(transactionID: text, status: byte)
    ensures var p := NewNotifyRespInd(transactionID, status);
            && MergedHeaders(p) == NotifyRespMap(transactionID, status)
            && OrderedEmission(MergedHeaders(p), []) ==
               [FIELD_MESSAGE_TYPE, FIELD_TRANSACTION_ID, FIELD_MMS_VERSION, FIELD_STATUS]
  {
    hide NewTextValue, NewTokenValue, EncodeVersion, Ascending, Present;
    var headers := MergedHeaders(NewNotifyRespInd(transactionID, status));
    Version13();
    assert headers == NotifyRespMap(transactionID, status);
    PresentShape(headers, LeadingFields());
    assert headers.Keys - FieldSet(LeadingFields()) == {FIELD_STATUS};
    ByteOrder();
    assert Enumerates([FIELD_STATUS], {FIELD_STATUS});
    SortedListing(ByteLe, [FIELD_STATUS], {FIELD_STATUS});
  }

  /** The handset's answer, byte for byte. */
  lemma NotifyRespBytes(transactionID: text, status: byte)
    ensures EncodePDU(NewNotifyRespInd(transactionID, status)) ==
            Ok([0x8C, 0x83, 0x98] + EncodeText(transactionID) + [0x8D, 0x93, 0x95, status])
  {
    NotifyRespHeaders(transactionID, status);
    hide MergedHeaders, OrderedEmission, Escaped;
    var headers := NotifyRespMap(transactionID, status);
    FourHeaders(headers, [FIELD_MESSAGE_TYPE, FIELD_TRANSACTION_ID, FIELD_MMS_VERSION, FIELD_STATUS]);
    assert HeaderBytes(FIELD_MESSAGE_TYPE, headers[FIELD_MESSAGE_TYPE]) == [0x8C, 0x83];
    assert HeaderBytes(FIELD_MMS_VERSION, headers[FIELD_MMS_VERSION]) == [0x8D, 0x93];
    assert HeaderBytes(FIELD_STATUS, headers[FIELD_STATUS]) == [0x95, status];
    AnswerJoined(EncodeText(transactionID), status);
  }

  lemma AnswerJoined(t: bytes, status: byte)
    ensures [0x8C, 0x83] + ([0x98] + t + ([0x8D, 0x93] + [0x95, status])) ==
            [0x8C, 0x83, 0x98] + t + [0x8D, 0x93, 0x95, status]
  {
  }

  // ---------------------------------------------------- what the senders emit

  /** What a notification says about its message; the subject and the sender may be empty. */
  datatype Notice = Notice(
    transactionID: text, contentLocation: text, from: text, subject: text,
    messageClass: byte, size: uint64, expiry: uint64)

  /** The sender that is named; without one the network is asked to insert it. */
  function SenderOf(from: text): text {
    if from == [] then Ascii("#insert") else from
  }

  function SentNotification(n: Notice): PDU {
    var p := NewNotificationInd(n.transactionID, n.contentLocation);
    var headers := p.headers[FIELD_FROM := NewFromValue(SenderOf(n.from))];
    var described := if n.subject != [] then headers[FIELD_SUBJECT := NewEncodedStringValue(FIELD_SUBJECT, n.subject)]
                     else headers;
    p.(mmsVersion := Ascii("1.2"),
       headers := described[FIELD_MESSAGE_CLASS := NewTokenValue(FIELD_MESSAGE_CLASS, n.messageClass)]
                           [FIELD_MESSAGE_SIZE := NewLongIntegerValue(FIELD_MESSAGE_SIZE, n.size)]
                           [FIELD_EXPIRY := NewRelativeDateValue(FIELD_EXPIRY, n.expiry)])
  }

  /** The headers of a sent notification, as they are written. */
  function SentHeaders(n: Notice): HeaderMap {
    var own: HeaderMap := SentNotification(n).headers;
    var typed: HeaderMap := own[FIELD_MESSAGE_TYPE := NewTokenValue(FIELD_MESSAGE_TYPE, MSG_TYPE_NOTIFICATION_IND)];
    typed[FIELD_MMS_VERSION := NewShortIntegerValue(FIELD_MMS_VERSION, 0x12)]
  }

  /** No NUL in the strings, and a sender whose length byte does not mislead. */
  predicate ReadableNotice(n: Notice) {
    0 !in n.transactionID && 0 !in n.contentLocation && 0 !in n.subject && FromDelimited(SenderOf(n.from))
  }

  lemma Version12()
    ensures Ascii("1.2") != [] && EncodeVersion(Ascii("1.2")) == 0x12 && DecodeVersion(0x12) == Ascii("1.2")
    ensures DecodeShortInteger(NewShortIntegerValue(FIELD_MMS_VERSION, 0x12).raw) == Ok(0x12)
  {
    assert Ascii("1.2")[2] == 0x32 && Ascii("1.1")[2] == 0x31 && Ascii("1.0")[2] == 0x30;
    ShortIntegerRoundTrip(FIELD_MMS_VERSION, 0x12);
  }

  lemma SentMerged(n: Notice)
    ensures MergedHeaders(SentNotification(n)) == SentHeaders(n)
  {
    hide NewTextValue, NewTokenValue, EncodeVersion, NotificationOrder, NewFromValue, NewEncodedStringValue,
      NewLongIntegerValue, NewRelativeDateValue, NewShortIntegerValue, SenderOf, Ascii;
    Version12();
    SentOwn(n);
    hide SentNotification;
  }

  lemma SentOwn(n: Notice)
    ensures var p := SentNotification(n);
            && FIELD_TRANSACTION_ID in p.headers
            && p.headers[FIELD_TRANSACTION_ID] == NewTextValue(FIELD_TRANSACTION_ID, n.transactionID)
            && p.messageType == MSG_TYPE_NOTIFICATION_IND && p.transactionID == n.transactionID
            && p.mmsVersion == Ascii("1.2") && p.body == None
  {
  }

  lemma OrderListed()
    ensures FieldSet(NotificationOrder()) ==
            {FIELD_MESSAGE_TYPE, FIELD_TRANSACTION_ID, FIELD_MMS_VERSION, FIELD_FROM, FIELD_SUBJECT,
             FIELD_MESSAGE_CLASS, FIELD_PRIORITY, FIELD_MESSAGE_SIZE, FIELD_EXPIRY, FIELD_CONTENT_LOCATION}
  {
    assert FieldSet(NotificationOrder()) ==
           FieldSet(LeadingFields()) + FieldSet(OptionalFields()) + FieldSet([FIELD_CONTENT_LOCATION]);
  }

  /** The fields a sent notification has. */
  function SentFields(n: Notice): set<byte> {
    {FIELD_MESSAGE_TYPE, FIELD_TRANSACTION_ID, FIELD_MMS_VERSION, FIELD_FROM, FIELD_MESSAGE_CLASS, FIELD_MESSAGE_SIZE,
     FIELD_EXPIRY, FIELD_CONTENT_LOCATION} + (if n.subject != [] then {FIELD_SUBJECT} else {})
  }

  lemma SentKeys(n: Notice)
    ensures SentHeaders(n).Keys == SentFields(n)
  {
    hide NewTextValue, NewTokenValue, NotificationOrder, NewFromValue, NewEncodedStringValue, NewLongIntegerValue,
      NewRelativeDateValue, NewShortIntegerValue, SenderOf, Ascii;
  }

  lemma SentHeadersListed(n: Notice)
    ensures SentHeaders(n).Keys <= FieldSet(NotificationOrder())
    ensures FIELD_CONTENT_LOCATION in SentHeaders(n) && FIELD_CONTENT_TYPE !in SentHeaders(n)
  {
    hide SentHeaders, FieldSet, NotificationOrder;
    SentKeys(n);
    OrderListed();
  }

  /** Field by field. */
  lemma SentValuesReadable(n: Notice)
    ensures WellFormedHeader(FIELD_TRANSACTION_ID, NewTextValue(FIELD_TRANSACTION_ID, n.transactionID).raw) <==>
            0 !in n.transactionID
    ensures WellFormedHeader(FIELD_CONTENT_LOCATION, NewTextValue(FIELD_CONTENT_LOCATION, n.contentLocation).raw) <==>
            0 !in n.contentLocation
    ensures WellFormedHeader(FIELD_SUBJECT, NewEncodedStringValue(FIELD_SUBJECT, n.subject).raw) <==> 0 !in n.subject
    ensures WellFormedHeader(FIELD_FROM, NewFromValue(SenderOf(n.from)).raw) <==> FromDelimited(SenderOf(n.from))
    ensures WellFormedHeader(FIELD_MESSAGE_TYPE, NewTokenValue(FIELD_MESSAGE_TYPE, MSG_TYPE_NOTIFICATION_IND).raw)
    ensures WellFormedHeader(FIELD_MESSAGE_CLASS, NewTokenValue(FIELD_MESSAGE_CLASS, n.messageClass).raw)
    ensures WellFormedHeader(FIELD_MMS_VERSION, NewShortIntegerValue(FIELD_MMS_VERSION, 0x12).raw)
    ensures WellFormedHeader(FIELD_MESSAGE_SIZE, NewLongIntegerValue(FIELD_MESSAGE_SIZE, n.size).raw)
    ensures WellFormedHeader(FIELD_EXPIRY, NewRelativeDateValue(FIELD_EXPIRY, n.expiry).raw)
  {
    hide NewTextValue, SelfDelimiting, NewTokenValue, NewShortIntegerValue, NewFromValue,
      NewEncodedStringValue, NewLongIntegerValue, NewRelativeDateValue, FromDelimited, SenderOf;
    TextDelimits(FIELD_TRANSACTION_ID, n.transactionID);
    TextDelimits(FIELD_CONTENT_LOCATION, n.contentLocation);
    TextDelimits(FIELD_SUBJECT, n.subject);
    TokenDelimits(FIELD_MESSAGE_TYPE, MSG_TYPE_NOTIFICATION_IND);
    TokenDelimits(FIELD_MESSAGE_CLASS, n.messageClass);
    TokenDelimits(FIELD_MMS_VERSION, 0x12);
    IntegerDelimits(FIELD_MESSAGE_SIZE, n.size);
    IntegerDelimits(FIELD_EXPIRY, n.expiry);
    FromDelimits(SenderOf(n.from));
  }

  lemma SentHeadersReadable(n: Notice)
    ensures WellFormedHeaders(SentHeaders(n)) <==> ReadableNotice(n)
  {
    hide NewTextValue, NewTokenValue, NewShortIntegerValue, DecodeShortInteger, NewFromValue, NewEncodedStringValue,
      NewLongIntegerValue, NewRelativeDateValue, FromDelimited, SenderOf, WellFormedHeader;
    Version12();
    SentValuesReadable(n);
    var headers := SentHeaders(n);
    assert FIELD_TRANSACTION_ID in headers && FIELD_CONTENT_LOCATION in headers && FIELD_FROM in headers;
    assert n.subject != [] ==> FIELD_SUBJECT in headers;
  }

  /**
   What a sender emits can be read back exactly when its strings have no NUL and its sender
   delimits itself.
   */
  lemma SentWellFormed(n: Notice)
    ensures WellFormed(SentNotification(n)) <==> ReadableNotice(n)
  {
    SentMerged(n);
    SentHeadersListed(n);
    SentHeadersReadable(n);
    hide MergedHeaders, OrderedEmission, NotificationOrder, WellFormedHeaders, SentHeaders, ReadableNotice;
    OrderedEmissionFields(SentHeaders(n), SentNotification(n).headerOrder);
  }

  /** What the handset makes of a notification: every field, and whether it is what was meant. */
  ghost predicate ReadsAs(got: PDU, n: Notice) {
    && got.messageType == 0x82
    && got.transactionID == n.transactionID
    && got.mmsVersion == Ascii("1.2")
    && got.headers.Keys == {0x0C, 0x18, 0x0D, 0x03, 0x09, 0x0A, 0x0E, 0x08} + (if n.subject != [] then {0x16} else {})
    && got.headers[0x03].GetText() == Ok(n.contentLocation)
    && (n.subject != [] ==> got.headers[0x16].GetText() == Ok(n.subject))
    && got.headers[0x0A].GetToken() == Ok(n.messageClass)
    && got.headers[0x08].GetInteger() == Ok(n.expiry)
    && (got.headers[0x0E].GetInteger() == Ok(n.size) <==> !LooksLikeDateToken(n.size))
    && var sender := got.headers[0x09].GetText();
       if n.from in {[], Ascii("#insert")} then sender == Err(InsertAddress)
       else sender == Ok(NormalizeAddress(n.from)) <==> 0 !in n.from && FromLengthRecoverable(n.from)
  }

  /** The headers carry the field codes and kinds the decoder gives them. */
  lemma SentTyped(n: Notice)
    ensures Typed(SentHeaders(n)) == SentHeaders(n)
  {
    SentKindsBuilt(n);
    hide NewFromValue, NewLongIntegerValue, NewRelativeDateValue, EncodeText, EncodeShortInteger, SenderOf;
    var headers := SentHeaders(n);
    assert forall f | f in headers :: headers[f].field == f && headers[f].kind == KindForField(f);
  }

  lemma SentNamed(n: Notice)
    requires 0 !in n.transactionID
    ensures TypeIn(SentHeaders(n)) == MSG_TYPE_NOTIFICATION_IND
    ensures TransactionIn(SentHeaders(n)) == n.transactionID
    ensures VersionIn(SentHeaders(n)) == Ascii("1.2")
  {
    hide NewFromValue, NewLongIntegerValue, NewRelativeDateValue, EncodeText, DecodeText, NewEncodedStringValue,
      SenderOf, DecodeVersion, DecodeShortInteger, NewShortIntegerValue;
    Version12();
    TextRoundTrip(n.transactionID);
  }

  lemma SentRead(n: Notice)
    requires ReadableNotice(n)
    ensures ReadsAs(Canonical(SentNotification(n)), n)
    ensures ContentLocationEnds(Canonical(SentNotification(n)).headerOrder)
  {
    hide MergedHeaders, WrittenOrder, NotificationOrder, EncodeText, DecodeText, NewFromValue, TypeIn, TransactionIn,
      VersionIn, Typed, NewLongIntegerValue, NewRelativeDateValue, LooksLikeDateToken, FromLengthRecoverable,
      NormalizeAddress, DecodeVersion, DecodeAddressString, DecodeInteger, DecodeEncodedString, FromDelimited,
      NewShortIntegerValue, OrderedEmission;
    SentMerged(n);
    SentKeys(n);
    SentTyped(n);
    SentNamed(n);
    SentOrderEnds(n);
    SentValuesRead(n);
  }

  lemma SentOrderEnds(n: Notice)
    ensures ContentLocationEnds(WrittenOrder(SentNotification(n)))
  {
    SentMerged(n);
    SentHeadersListed(n);
    hide MergedHeaders, OrderedEmission, NotificationOrder, SentHeaders;
    ContentLocationLast(SentHeaders(n));
  }

  lemma SentValuesRead(n: Notice)
    requires ReadableNotice(n)
    ensures NewTextValue(FIELD_CONTENT_LOCATION, n.contentLocation).GetText() == Ok(n.contentLocation)
    ensures n.subject != [] ==> NewEncodedStringValue(FIELD_SUBJECT, n.subject).GetText() == Ok(n.subject)
    ensures NewTokenValue(FIELD_MESSAGE_CLASS, n.messageClass).GetToken() == Ok(n.messageClass)
    ensures NewRelativeDateValue(FIELD_EXPIRY, n.expiry).GetInteger() == Ok(n.expiry)
    ensures NewLongIntegerValue(FIELD_MESSAGE_SIZE, n.size).GetInteger() == Ok(n.size) <==> !LooksLikeDateToken(n.size)
    ensures var sender := NewFromValue(SenderOf(n.from)).GetText();
            if SenderOf(n.from) == Ascii("#insert") then sender == Err(InsertAddress)
            else sender == Ok(NormalizeAddress(n.from)) <==> 0 !in n.from && FromLengthRecoverable(n.from)
  {
    hide EncodeText, DecodeText, NewFromValue, NewLongIntegerValue, NewRelativeDateValue, LooksLikeDateToken,
      FromLengthRecoverable, NormalizeAddress, FromDelimited, DecodeEncodedString;
    TextRoundTrip(n.contentLocation);
    EncodedStringRoundTrip(n.subject);
    LongIntegerAccessor(FIELD_MESSAGE_SIZE, n.size);
    RelativeDateAccessor(FIELD_EXPIRY, n.expiry);
    FromAccessor(SenderOf(n.from));
  }

  predicate ContentLocationEnds(order: seq<byte>) {
    && order != [] && order[|order| - 1] == FIELD_CONTENT_LOCATION
    && forall i | 0 <= i < |order| - 1 :: order[i] != FIELD_CONTENT_LOCATION
  }

  lemma SentKindsBuilt(n: Notice)
    ensures NewFromValue(SenderOf(n.from)).kind == Address
    ensures NewLongIntegerValue(FIELD_MESSAGE_SIZE, n.size).kind == LongInt
    ensures NewRelativeDateValue(FIELD_EXPIRY, n.expiry).kind == Date
    ensures NewFromValue(SenderOf(n.from)).field == FIELD_FROM
    ensures NewLongIntegerValue(FIELD_MESSAGE_SIZE, n.size).field == FIELD_MESSAGE_SIZE
    ensures NewRelativeDateValue(FIELD_EXPIRY, n.expiry).field == FIELD_EXPIRY
  {
  }

  /** The senders build it step by step. */
  method NotificationFor(n: Notice) returns (p: PDU)
    ensures p == SentNotification(n)
  {
    p := NewNotificationInd(n.transactionID, n.contentLocation);
    p := p.(mmsVersion := Ascii("1.2"));
    var from := n.from;
    if from == [] {
      from := Ascii("#insert");
    }
    var headers := p.headers[FIELD_FROM := NewFromValue(from)];
    if n.subject != [] {
      headers := headers[FIELD_SUBJECT := NewEncodedStringValue(FIELD_SUBJECT, n.subject)];
    }
    headers := headers[FIELD_MESSAGE_CLASS := NewTokenValue(FIELD_MESSAGE_CLASS, n.messageClass)];
    headers := headers[FIELD_MESSAGE_SIZE := NewLongIntegerValue(FIELD_MESSAGE_SIZE, n.size)];
    headers := headers[FIELD_EXPIRY := NewRelativeDateValue(FIELD_EXPIRY, n.expiry)];
    p := p.(headers := headers);
  }

  /** A sender that spoils any notification: a number of 243 digits. */
  lemma LongSenderSpoils(n: Notice)
    requires n.from == seq(243, i => 0x31)
    ensures !WellFormed(SentNotification(n))
  {
    hide WellFormed, SentNotification, NewFromValue, SelfDelimiting;
    assert n.from != [];
    LongFromOverruns();
    FromDelimits(n.from);
    SentWellFormed(n);
  }
}
