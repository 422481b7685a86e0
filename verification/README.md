# Verification model of the VectorCore MMSC

A Dafny model of the parts of the MMSC that carry its hard guarantees, with
proofs. It covers five areas.

- **The MMS PDU codec** (`internal/mmspdu`): integers, strings, addresses,
  self-delimiting header values, content types and the length-framed multipart
  body, up to whole PDUs. Follows WAP-230-WSP sections 8.1.2, 8.4.2 and 8.5.
  Files `Fields`, `Reader`, `Headers`, `HeaderBlock`, `ContentType`,
  `ContentTypeLaws`, `Multipart`, `MultipartLaws`, `MultipartExact`,
  `MultipartBounds`, `Codec`, `CodecLaws`, `Notification`. `WireForms` and
  `ContentForms` say byte by byte what the decoders make of every form, also of
  those the encoders here never write.
- **The notification transport**: WSP push frame, concatenated SMS segments and
  SMPP v3.4 frames, and the theorem that joins them to the codec. Files
  `WapPush`, `SmppCodec`, `SmppForms`, `SmppLaws`, `Submit`, `Delivery`.
- **SMPP state machines**: the session's pending table under all
  interleavings, reconciliation of clients with configuration, and receipts
  adding up to a message status over whole runs. Files `Session`,
  `SessionRuns`, `SessionHistory`, `SessionResults`, `Manager`, `Receipts`,
  `ReceiptRuns`, `Tracking`.
- **Routing** of one address and of all recipients. File `Routing`.
- **Local delivery**: store, load and serve. Files `Retrieval`, `Response`.

`Bytes` and `Sorting` hold what all of them use.

## How to read it

A Go string is a byte sequence, so `text` and `bytes` are one type. Where the
source works through a moving cursor, the method works on the class
`ByteReader`, and its contract says which function of the unread bytes it
computes (`Yields`); the laws are proved about those functions. Go visits a map
in no fixed order: a method picks the next key with `:|`, so what it ensures
holds for every order; where the order shows in the output, a ghost result says
how it was settled. Errors are values of `Result`.

Shared state that the source guards with a mutex is a class whose methods are
its locked sections. `SessionRuns` interleaves those sections with the sends
and closes that follow outside the lock. Tables are maps from primary keys.

Some properties hold only under a condition. Then the lemma is an
if-and-only-if, with a concrete failing input beside it where that helps:

- `Integer()` misreads long integers whose top digit is 0x80 or 0x81.
- A From value of more than 30 payload bytes is lost, save for lengths that
  happen to read as a token; from 256 bytes on it can take the whole PDU with it.
- A PDU-level content type in bare text form is cut to its first byte.
- A capital letter in a parameter name loses the parameter's value.
- The push announces the true Content-Length only below 2^32.
- A message can ever be delivered exactly when some of its segments have rows and
  no recipient has some of its segments recorded without the others. An upstream
  that gives no IDs to a recipient, or gives all of them again to later ones,
  leaves that recipient out of the count, and the message can read delivered
  without it.
- A request is left waiting for ever only where two Connects overlap; without
  that, its reply can still be lost to a request of an earlier connection that
  gives up while it waits, or come from the read loop of an earlier connection.
- A NUL in a sender or a recipient number spoils the submissions on the wire.
- A SMIL type with white space around it survives storing but not serving.
- A route by domain without a value is met by every address that has no domain.
- Keeping a client across a refresh is harmless because configurations are
  built from upstreams, not because the comparison is complete.

## Model

| member | source | states |
|---|---|---|
| Bytes.TrimSpaceMeans | cmd/mmsc/main.go:428-428 | Trimming takes tabs, line breaks, form feeds and spaces off both ends, and nothing else (strings.TrimSpace on ASCII) |
| Bytes.FoldMeans | internal/routing/peer.go:40-40 | Folding identifies texts that differ in the case of ASCII letters alone (strings.EqualFold on ASCII) |
| Bytes.FourDigits | internal/smpp/codec.go:26-36 | Four big-endian bytes and the number they are worth, both ways |
| Sorting.TextLeMeans | internal/mmspdu/content_type.go:113-126 | The order keys are sorted by: a beginning first, else the smaller byte where they first differ |
| Reader.ByteReader.ReadByte | internal/mmspdu/fields.go:357-364 | Reads stay inside the buffer: one byte is taken off the unread rest, or EOF and the position stays |
| Reader.ByteReader.ReadN | internal/mmspdu/fields.go:366-373 | Exactly n bytes are taken when n is not negative and that many are left; otherwise EOF and nothing moves |
| Reader.ByteReader.ReadUntilNull | internal/mmspdu/fields.go:375-377 | Everything up to and including the first NUL is taken; without one, EOF and the position stays |
| Reader.ByteReader.ReadUntilNullFrom | internal/mmspdu/fields.go:379-388 | The same, behind a byte that was read before |
| Fields.EncodeUintvar | internal/mmspdu/fields.go:187-203 | The array loop writes the base-128 digits, most significant first, continuation bit on all but the last (WAP-230-WSP section 8.1.2) |
| Fields.DecodeUintvar | internal/mmspdu/fields.go:205-217 | Value and number of bytes used agree with the recursive reading; at most five bytes |
| Fields.UintvarExact | internal/mmspdu/fields.go:187-217 | For every value and every suffix: decoding the encoding gives the value and leaves the suffix iff the value is below 2^35, and is the uintvar error otherwise |
| Fields.EncodeLongInteger | internal/mmspdu/fields.go:160-172 | A length byte and the big-endian digits without leading zeros; zero is one digit |
| Fields.LongIntegerRoundTrip | internal/mmspdu/fields.go:160-185 | Every uint64 survives encode and decode |
| Fields.LongIntegerAccessor | internal/mmspdu/fields.go:97-114 | Integer() gives back the value a long-integer header was built from iff its digits do not start with a 0x80 or 0x81 date token followed by more |
| Fields.LongIntegerAccessorFails | internal/mmspdu/fields.go:101-110 | A concrete failing value: 0x8000 |
| Fields.RelativeDateAccessor | internal/mmspdu/fields.go:51-54 | Integer() always gives back the seconds of a relative date |
| Fields.DateAccessor | internal/mmspdu/fields.go:47-49 | Integer() gives back the seconds of a date iff they do not look like a date token |
| Fields.DateAccessorFails | internal/mmspdu/fields.go:101-110 | The first date that is misread: 0x80000000 seconds, in January 2038 |
| Fields.TextRoundTrip | internal/mmspdu/fields.go:219-239 | A text string, with its escape byte where the first byte calls for one, is recovered iff it has no NUL; with one it is the invalid-text error |
| Fields.QuotedRoundTrip | internal/mmspdu/fields.go:241-256 | A quoted string is recovered iff it has no NUL |
| Fields.EncodedStringRoundTrip | internal/mmspdu/fields.go:258-329 | An encoded string is recovered iff it has no NUL and is not empty |
| Fields.AddressAccessor | internal/mmspdu/fields.go:65-67 | Text() of an address value gives the address with its type suffix iff it has no NUL |
| Fields.FromAccessor | internal/mmspdu/fields.go:56-63 | For every sender: Text() of a From value gives the address back iff it has no NUL and the payload has at most 30 bytes, or a length that is 0x80 modulo 256; of "#insert" it is the insert-address error |
| Fields.LongFromLost | internal/mmspdu/fields.go:56-63 | A concrete loss: a number of forty digits |
| Fields.ShortIntegerRoundTrip | internal/mmspdu/fields.go:39-41 | Integer() gives back the value of a short integer |
| Headers.DecodeHeaderValue | internal/mmspdu/header.go:76-147 | The value read for each kind of field, and where reading stops |
| Headers.HeaderNameRoundTrip | internal/mmspdu/header.go:58-74 | A field code up to 0x7F is read back; the text form that larger ones are written in is refused |
| Headers.HeaderValueReparse | internal/mmspdu/header.go:76-147 | What was read as a value is read again as the same value in front of anything, and every read consumes input |
| Headers.TextDelimits | internal/mmspdu/fields.go:27-33 | Text and encoded-string values end where they should iff they have no NUL |
| Headers.TokenDelimits | internal/mmspdu/fields.go:35-41 | Tokens and short integers delimit themselves |
| Headers.IntegerDelimits | internal/mmspdu/fields.go:43-54 | Long integers and relative dates delimit themselves |
| Headers.AddressDelimits | internal/mmspdu/fields.go:65-67 | An address value delimits itself iff it has no NUL |
| Headers.FromDelimits | internal/mmspdu/fields.go:56-63 | For every sender: a From value delimits itself iff its length byte is exact, or is no short length and the address has no NUL |
| Headers.LongFromOverruns | internal/mmspdu/fields.go:56-63 | A concrete one that does not: a number of 243 digits, whose length byte is zero |
| HeaderBlock.EncodeHeaders | internal/mmspdu/header.go:9-34 | All headers, ascending by field whatever the map order; an empty value is an error |
| HeaderBlock.DecodeHeaders | internal/mmspdu/header.go:36-56 | Header after header to the end of input, the last of a repeated field kept |
| HeaderBlock.BlockRoundTrip | internal/mmspdu/header.go:9-56 | Self-delimiting headers come back with the kinds their fields have |
| HeaderBlock.BlockReencodes | internal/mmspdu/header.go:9-56 | Whatever block decodes can be encoded and decoded again unchanged |
| WireForms.TextMeans | internal/mmspdu/fields.go:228-239 | Every input of the text reader: cut short without a final NUL, invalid with another, else what stands in front of it without its quote byte |
| WireForms.EncodedStringMeans | internal/mmspdu/fields.go:309-329 | A string with a charset in front, as a token or as a text, or without one: the charset is skipped |
| WireForms.CountedStringMeans | internal/mmspdu/fields.go:262-273 | A counted string, cut short or with more behind it |
| WireForms.AddressMeans | internal/mmspdu/fields.go:275-307 | The forms of an address: plain, counted behind an address-present token, with a charset in it, and the insert token |
| WireForms.AddressWritten | internal/mmspdu/fields.go:331-343 | The type an address is written with: the one it has in any letter case, EMAIL with an "@", else PLMN and a plus sign |
| WireForms.IntegerMeans | internal/mmspdu/fields.go:97-114 | Up to eight counted digits are worth their big-endian value, unless the first of several is a date token |
| WireForms.DateMeans | internal/mmspdu/fields.go:101-110 | Behind an absolute or relative token stands a counted integer, and both are counted |
| WireForms.BadIntegers | internal/mmspdu/fields.go:174-185 | No digits, more than eight or another number than announced are the integer error |
| WireForms.TokenFields | internal/mmspdu/types.go:112-140 | Each field of one byte, by its code: exactly that byte is taken |
| WireForms.VersionField | internal/mmspdu/types.go:125-125 | And the version, as a short integer |
| WireForms.TextFields | internal/mmspdu/types.go:112-140 | Each field that is a text or a string, by its code: it ends at the first NUL |
| WireForms.IntegerFields | internal/mmspdu/types.go:112-140 | Each field that is an integer or a date, by its code: it ends after the bytes it counts |
| WireForms.AddressFields | internal/mmspdu/types.go:112-140 | Each field that is an address, by its code: counted up to 30 bytes, else up to the first NUL |
| WireForms.ContentTypeField | internal/mmspdu/header.go:128-147 | The content type: counted, counted behind a length quote, or one byte |
| WireForms.OtherFields | internal/mmspdu/types.go:142-147 | No other code is known, and no name starts below 0x80 |
| WireForms.VersionsMean | internal/mmspdu/codec.go:87-115 | The version behind each byte; each known version is read as it was written, every other as 1.3 |
| WireForms.SendRequestRead | internal/mmspdu/codec.go:28-57 | An m-send-req in bytes, with priority, delivery report and read reply: every header is read in its place and the body on its own, for all values and bodies |
| ContentType.TokensNameTheirTexts | internal/mmspdu/content_type.go:20-77 | The token tables of media types, and of parameter names, agree: a token names the text it was chosen for |
| ContentType.TextsChooseTheirTokens | internal/mmspdu/content_type.go:20-77 | And conversely: every token with a name is the one chosen for that name |
| ContentType.EncodeContentTypeValue | internal/mmspdu/content_type.go:104-162 | The bytes of a content type for every map iteration order: tokens where known, parameters ascending by lower-cased key, length-quote from 31 bytes |
| ContentType.ParamKeysOfListing | internal/mmspdu/content_type.go:113-126 | The sorted keys do not depend on the order the map is visited in |
| ContentType.DecodeContentTypeValue | internal/mmspdu/content_type.go:186-261 | The header-level decoder over its moving reader |
| ContentType.ContentTypeRoundTrip | internal/mmspdu/content_type.go:104-261 | For NUL-free, lower-case keys, the empty one included, the header decoder gives the normalised value back iff there are parameters or the media type has a token, and fails otherwise |
| ContentTypeLaws.ContentTypeExact | internal/mmspdu/content_type.go:104-261 | For every value: it is given back iff it is a bare media type with a token, or its parameters are lower-case and NUL-free and its payload is shorter than 2^35 |
| ContentType.CapitalKeyFails | internal/mmspdu/content_type.go:127-133 | A concrete failing value: a parameter called Name |
| ContentType.ContentTypeDelimits | internal/mmspdu/header.go:128-147 | At PDU level a content type ends where it should iff it has parameters or a token: the bare text form is cut to one byte |
| ContentType.BareTextFails | internal/mmspdu/header.go:128-147 | A concrete one that is cut: image/webp |
| ContentType.ContentTypeCanonical | internal/mmspdu/content_type.go:104-184 | For every value: normalising first does not change the encoding, and normalising is idempotent |
| ContentForms.MediaTypesMean | internal/mmspdu/content_type.go:20-37 | The media type behind each token; every other token is refused |
| ContentForms.MediaTypeWritten | internal/mmspdu/content_type.go:104-174 | A media type is written trimmed and in small letters, or as octet-stream when that leaves nothing or anything but printable ASCII |
| ContentForms.ParamValueMeans | internal/mmspdu/content_type.go:289-318 | A charset by token, by number or as text, a type by token or as text, any other parameter as text alone |
| ContentForms.DecimalMeans | internal/mmspdu/content_type.go:307-318 | The number of a charset is written in decimal digits worth that number |
| ContentForms.ValueMeans | internal/mmspdu/content_type.go:320-337 | A text value is read without its quotation mark or quote byte, whatever it begins with |
| ContentForms.CharsetValueMeans | internal/mmspdu/content_type.go:320-337 | And without the charset that stands in front of it |
| ContentForms.TokenValueMeans | internal/mmspdu/multipart.go:350-367 | A value of one byte from 0x80 on is a media type in a part header and an error in a parameter |
| ContentForms.ParamNameMeans | internal/mmspdu/content_type.go:58-71 | The name behind each parameter token, none for another, and names as text in small letters |
| ContentForms.RelatedMeans | internal/mmspdu/content_type.go:186-261 | multipart.related with start and type in bytes, counted either way: both parameters are read |
| Multipart.EncodeMultipart | internal/mmspdu/multipart.go:10-28 | Count, then for each part two lengths, header block and data; for every map order, also when keys clash by case: the bytes are those of the body with the clashes decided one way or the other |
| Multipart.EncodePartHeaders | internal/mmspdu/multipart.go:83-118 | Content type, then the lower-cased headers ascending; content-id bracketed and quoted; for every map order, also when keys clash by case |
| Multipart.DecodeMultipart | internal/mmspdu/multipart.go:30-81 | The frame loop over the moving reader; a count that cannot fit is refused before anything is read |
| Multipart.DecodePartHeaders | internal/mmspdu/multipart.go:138-186 | The header block of a part |
| Multipart.DecodePartContentTypeValue | internal/mmspdu/multipart.go:188-227 | All four content-type forms of a part, with the number of bytes used |
| ContentForms.PartValueMeans | internal/mmspdu/multipart.go:328-348 | The forms of a value in a part: counted either way, text, or one byte |
| ContentForms.PartHeaderMeans | internal/mmspdu/multipart.go:138-186 | Content location behind 0x8E, content ID behind 0xC0, other tokens skipped with their value, and texts with the name in small letters |
| ContentForms.PartTypeMeans | internal/mmspdu/multipart.go:188-227 | The type of a part as a text, a token or counted |
| ContentForms.ImageBody | internal/mmspdu/multipart.go:10-81 | A body with one image, its ID and its location, in bytes: written so, and read back so |
| MultipartLaws.PartContentTypeRoundTrip | internal/mmspdu/multipart.go:188-260 | The part decoder inverts the encoder in front of anything, across the 30/31-byte switch, tokens and text alike, bare text form included |
| MultipartLaws.ContentTypeDecodersAgree | internal/mmspdu/content_type.go:186-261 | On every encoding that the header decoder can read, header decoder and part decoder give the same value |
| MultipartLaws.DecodersDiffer | internal/mmspdu/multipart.go:229-260 | On other bytes they differ: a parameter with an unknown token is an error to one and skipped by the other |
| MultipartLaws.WritableDirectly | internal/mmspdu/multipart.go:83-118 | When no header keys clash, what is written of a part is NUL-free iff its own header keys and values are, save under the empty key |
| MultipartLaws.PartHeaderBlockRoundTrip | internal/mmspdu/multipart.go:83-186 | A part header block is read back normalised |
| MultipartLaws.PartRoundTrip | internal/mmspdu/multipart.go:10-81 | A framed part is read back normalised and the rest of the input is left |
| MultipartLaws.MultipartRoundTrip | internal/mmspdu/multipart.go:10-81 | Decoding an encoded body followed by anything gives the normalised body |
| MultipartExact.PartExact | internal/mmspdu/multipart.go:10-81 | A part in front of anything is read back normalised iff it has no NUL in what is written of its headers and both its lengths are below 2^35 |
| MultipartExact.BodyExact | internal/mmspdu/multipart.go:10-81 | A body in front of anything is read back normalised iff all of its parts are and their number is below 2^35 |
| MultipartLaws.PartCanonical | internal/mmspdu/multipart.go:83-136 | For every part: normalisation is idempotent, invisible to the encoder, and makes nothing readable that was not |
| MultipartLaws.EqualEncodings | internal/mmspdu/multipart.go:407-409 | Bodies with equal normal forms have equal encodings, and readable bodies with equal encodings have equal normal forms |
| MultipartLaws.BodyPartition | internal/mmspdu/multipart.go:30-81 | A decoded body accounts for every byte: count, one self-contained frame a part, an ignored tail; at most (length-1)/2 parts |
| MultipartLaws.DecodedBodyWritable | internal/mmspdu/multipart.go:138-186 | Whatever decodes has no NUL and no clashing keys, so it can be written again |
| MultipartBounds.BlockGrowth | internal/mmspdu/multipart.go:83-186 | A decoded header block is written again in at most 128 times its length |
| MultipartBounds.ReencodingStable | internal/mmspdu/multipart.go:10-81 | A decoded body is written so that it is read again iff its frame lengths are below 2^35, which holds for every input shorter than 2^28 bytes; re-encoding is a fixed point |
| Codec.EmissionShape | internal/mmspdu/codec.go:181-224 | Every header is emitted, once when the order repeats none: the listed fields first, the rest ascending |
| Codec.EmissionAscends | internal/mmspdu/codec.go:181-224 | Behind the listed fields come exactly the others, in ascending order of their codes |
| Codec.EmissionStable | internal/mmspdu/codec.go:181-224 | Using the emission order as the order changes nothing |
| Codec.CanonicalHeaderOrder | internal/mmspdu/codec.go:158-179 | Message type, transaction ID and version lead, the rest ascend, for every map order |
| Codec.EncodeHeadersBySequence | internal/mmspdu/codec.go:181-224 | The bytes are those of the emission order, for every map order; an empty value is an error |
| Codec.EncodePDUWithBody | internal/mmspdu/codec.go:117-145 | Content-Type is written last, directly in front of the body; without one it is an error |
| Codec.Encode | internal/mmspdu/codec.go:59-85 | Named fields override headers, and a body without Content-Type gets multipart/related; clashing part keys are decided one way or the other |
| Codec.DecodePDUSections | internal/mmspdu/codec.go:226-253 | Headers in order up to a Content-Type that something follows; what follows is the body |
| Codec.Decode | internal/mmspdu/codec.go:28-57 | The named fields are read out of the headers, each with its error |
| CodecLaws.PDURoundTrip | internal/mmspdu/codec.go:28-85 | Decode(Encode(p)) of a well-formed PDU: the merged headers with their kinds, HeaderOrder exactly the emission order, the normalised parts in order |
| CodecLaws.PDUExact | internal/mmspdu/codec.go:28-85 | And of no other: a PDU is read back in canonical form iff it is well-formed |
| CodecLaws.BodyAlone | internal/mmspdu/codec.go:117-145 | With readable headers everything is read back but the body, and that as it reads on its own, errors included |
| CodecLaws.PDUPartition | internal/mmspdu/codec.go:226-253 | A decoded PDU accounts for every byte: name and raw value of each header in HeaderOrder, the last of a field kept, then the body |
| CodecLaws.CanonicalFixedPoint | internal/mmspdu/codec.go:28-85 | Encoding what was decoded gives the same bytes iff the transaction ID was written the way the encoder writes it |
| CodecLaws.DecodedWellFormed | internal/mmspdu/codec.go:28-57 | Whatever decodes is well-formed iff its frame lengths are below 2^35, as those of an input shorter than 2^28 bytes are |
| CodecLaws.DecodeEncodeDecode | internal/mmspdu/codec.go:28-85 | What was decoded is encoded and decoded to its canonical form under exactly that condition, and is a fixed point from then on |
| Notification.NotificationBytes | internal/mmspdu/pdu_notify.go:13-24 | The bytes of m-notification-ind for every transaction ID and location |
| Notification.ContentLocationLast | internal/mmspdu/pdu_notify.go:3-11 | The listed order, by code; Content-Location is the last header, and appears once, whatever other fields are set |
| Notification.NotificationWellFormed | internal/mmspdu/pdu_notify.go:13-24 | The bare notification can be read back iff both strings are NUL-free |
| Notification.NotificationFor | internal/mm1/handler_mo.go:295-307 | The notification as the senders emit it: version, sender or insert token, subject if any, class, size, expiry |
| Notification.SentWellFormed | internal/mm1/handler_mo.go:295-307 | What is sent can be read back iff transaction ID, location and subject are NUL-free and the From value delimits itself |
| Notification.SentRead | internal/mm1/handler_mo.go:295-307 | Then every field, by its code, reads as it was meant, the size iff it does not look like a date, the sender iff its length byte is recoverable; Content-Location ends the headers |
| Notification.LongSenderSpoils | internal/mm1/handler_mo.go:297-301 | A sender of 243 digits makes any notification unreadable |
| Notification.NotifyRespBytes | internal/mmspdu/pdu_notify.go:26-36 | The bytes of m-notifyresp-ind for every transaction ID and status |
| WapPush.UnwrapInvertsWrap | internal/wappush/push.go:27-84 | Unwrapping gives back any PDU of any length |
| WapPush.UnwrapMeans | internal/wappush/push.go:71-84 | What is unwrapped of any push: its headers are skipped, whatever they are, and every error |
| WapPush.PushWritten | internal/wappush/push.go:5-69 | The frame in bytes, header by header, for each width of its content length |
| WapPush.ContentLengthExact | internal/wappush/push.go:52-69 | The announced Content-Length is the true length iff that is below 2^32 |
| WapPush.SegmentBinarySMS | internal/wappush/sms.go:17-40 | Succeeds iff 1 <= length <= 32640, and gives the specified segments |
| WapPush.SegmentShape | internal/wappush/sms.go:17-50 | 13 to 140 bytes, all but the last full; header length, ports, shared total and reference, number |
| WapPush.SegmentsConserve | internal/wappush/sms.go:17-40 | The payloads one after another are the push |
| WapPush.RejoinInvertsSegment | internal/wappush/sms.go:17-50 | Segments in any order, any of them repeated, rejoin by number to the push |
| SmppCodec.Encode | internal/smpp/codec.go:16-36 | Header with the computed length, then the command body; the two lengths are filled in and nothing else changes; which PDUs are refused, and with which error |
| SmppCodec.Decode | internal/smpp/codec.go:38-66 | The length bounds, the short reads and the command bodies, over the moving reader |
| SmppCodec.ReadCString | internal/smpp/codec.go:216-228 | The byte loop gives what stands in front of the first NUL |
| SmppLaws.PDURoundTrip | internal/smpp/codec.go:16-209 | In front of anything, a PDU comes back with its own command's fields and computed lengths iff those strings are NUL-free and the short message has at most 255 bytes |
| SmppLaws.StreamExact | internal/smpp/codec.go:16-66 | Concatenated encodings decode back to the list iff each PDU of it comes back on its own |
| SmppLaws.DecodeConsumesLength | internal/smpp/codec.go:38-66 | Decoding takes exactly CommandLength bytes |
| SmppForms.FrameMeans | internal/smpp/codec.go:38-66 | Any four header numbers and what follows: refused below 16 and above 16 MiB, cut short, or the body of that length with the rest left |
| SmppForms.FrameWritten | internal/smpp/codec.go:16-36 | The four header numbers and the body; encoded iff the command is one of fifteen and the frame has at most 16 MiB |
| SmppForms.MessageWritten | internal/smpp/codec.go:68-110 | The body of submit_sm and deliver_sm, byte by byte |
| SmppForms.BindWritten | internal/smpp/codec.go:68-110 | The body of the binds, byte by byte |
| SmppForms.ResponsesMean | internal/smpp/codec.go:112-209 | Responses to binds need a system ID, those to messages may lack the message ID |
| SmppForms.HeadersAlone | internal/smpp/codec.go:112-209 | Which commands are headers alone, and that any other is refused |
| SmppForms.BareFrameMeans | internal/smpp/codec.go:38-66 | And that their frames set the four header numbers and nothing else |
| SmppForms.OptionalIgnored | internal/smpp/codec.go:112-209 | Optional parameters behind the message are ignored |
| Submit.KeptExactly | internal/smpp/manager.go:232-268 | A client is kept iff its entry and the new one agree on everything a client uses, in the bytes that are sent; names and activity do not count |
| Submit.SubmitsAsAsked | internal/smpp/submit.go:58-139 | Field by field, what a client submits for a segment, in terms of the upstream: command 4, sender, recipient, segment, WAP, header indicator, coding, and the types and plans, set or guessed |
| Submit.KeptClientSubmitsTheSame | internal/smpp/manager.go:232-268 | A client kept by the comparison submits the very PDU a new one would, though the comparison skips the destination flags; the configurations are equal iff those flags are |
| Submit.HandMadeConfigDiffers | internal/smpp/submit.go:60-67 | That needs a configuration built from an upstream: a hand-made one for which it fails |
| Submit.SubmitSegments | internal/smpp/submit.go:42-54 | What is sent and what the tracker is told, up to the first failure of the upstream or of the tracker, and whose error is returned; each PDU asks for its segment, from sender to recipient, as the upstream wants it |
| Submit.SubmitWAPPush | internal/smpp/submit.go:20-119 | Succeeds iff the push has 1 to 32640 bytes and neither upstream nor tracker fails; then one submit_sm for each segment was sent. On failure, what was sent and tracked before it and whose error is returned. Whatever was sent asks for segment after segment, from sender to recipient, as the upstream wants it |
| Submit.ToldIsPrefix | internal/smpp/submit.go:42-54 | What one submit leaves tracked: consecutive indices from zero with the IDs the upstream gave; all segments iff nothing failed before the last was acknowledged |
| Delivery.SegmentsCross | internal/smpp/submit.go:58-119 | The submissions of a push arrive over the SMPP stream as they were sent iff neither address has a NUL, and they hold the segments in order |
| Delivery.EndToEnd | internal/wappush/push.go:27-84 | Encode, wrap, segment, submit_sm stream, iff neither address has a NUL, each PDU read asking for its segment from sender to recipient as the upstream wants it; then any reordering and repetition, rejoin, unwrap, decode: the canonical form of the PDU, iff that is well-formed |
| Delivery.NotificationArrives | internal/mm1/handler_mo.go:295-319 | The handset reads a sent notification, field by field, iff its strings are NUL-free and its From value delimits itself |
| Session.Session.StartConnect | internal/smpp/session.go:74-81 | First locked section of Connect |
| Session.Session.SetBound | internal/smpp/session.go:100-104 | Last locked section of Connect |
| Session.Session.TakeAll | internal/smpp/session.go:112-120 | Locked section of Close: everything is taken out |
| Session.Session.Enrol | internal/smpp/session.go:156-165 | Locked section of Request: registered iff there is a connection |
| Session.Session.UnregisterPending | internal/smpp/session.go:235-239 | Gives up a pending entry |
| Session.Session.TakePending | internal/smpp/session.go:254-259 | Locked section of the read loop: the waiting channel is taken out |
| Session.BindResponseMatches | internal/smpp/session.go:320-329 | The expected response is the request with the response bit, and both are bind commands |
| Session.BindModes | internal/smpp/session.go:320-329 | Receiver and transmitter are bound as such, any other mode as both |
| SessionRuns.StepKeepsInv | internal/smpp/session.go:72-265 | Every locked section, send and close keeps: conn and done come and go together, Bound has a connection, no connection no pending; each channel in one place; at most one send and close; nothing lost |
| SessionRuns.RunKeepsInv | internal/smpp/session.go:72-265 | The same after every interleaving |
| SessionHistory.RunHistory | internal/smpp/session.go:72-265 | After every interleaving: which number a request was enrolled under and on which connection, that replies come later, and why each lost entry was lost |
| SessionHistory.LostExactly | internal/smpp/session.go:72-265 | A channel is lost in some way iff some event of the run took it out of the shared state in that way |
| SessionResults.SharedAfter | internal/smpp/session.go:72-265 | What each event does to connection, state, done channel and pending table, field by field |
| SessionResults.WakesWith | internal/smpp/session.go:167-188 | When a waiting request can return, and whether with a reply, on a close or by giving up |
| SessionResults.SafeChannels | internal/smpp/session.go:110-135 | On any channel of any run: at most one send, at most one close, neither once it is out of the table, and no send missing when a claimed one is closed |
| SessionResults.NothingPanics | internal/smpp/session.go:122-128 | No pending send or close meets a channel that is closed already, and no send one that was sent on |
| SessionResults.ReplyIsItsOwn | internal/smpp/session.go:151-188 | A reply that Request returns was read after the enrolment, carries its number and expected command, is no deliver_sm, unbind or enquire_link, and is returned to no other request |
| SessionResults.NumbersExactly | internal/smpp/conn.go:52-54 | Two requests have the same number iff their draws differ by a multiple of 2^32, and two draws from one connection differ |
| SessionResults.NumbersDiffer | internal/smpp/conn.go:52-54 | So numbers drawn from one connection do not repeat on it before they wrap around |
| SessionResults.ReplyCorrelation | internal/smpp/session.go:151-188 | A reply from the request's own connection belongs to the only request that connection sent under that number |
| SessionResults.WaitersAreCurrent | internal/smpp/session.go:100-120 | Without overlapping Connects, whoever is in the table was enrolled on the current connection and waits on its done channel |
| SessionResults.ReplyFromOwnConnection | internal/smpp/session.go:241-265 | Without overlapping Connects, a reply comes from the connection of its request iff the read loop that brought it was that of the connection current then |
| SessionResults.LateReadLoop | internal/smpp/session.go:241-265 | A run in which it is not: a read loop that outlives its connection |
| SessionResults.ArrivalOrReply | internal/smpp/session.go:241-318 | In every state deliver_sm, unbind and enquire_link, by command ID, change nothing, whatever their number; any other command takes a pending number out and owes its channel a send |
| SessionResults.ArrivalsAnswerNobody | internal/smpp/session.go:267-318 | So after any run no answer of any request is one of the three |
| SessionResults.ReplyReachesWaiter | internal/smpp/session.go:254-263 | A reply to a waiting request is handed to its channel and to no other |
| SessionResults.StuckIffAbandoned | internal/smpp/session.go:122-128 | Disconnected with nothing left to do, a request is left waiting on open channels iff another request took its entry and an overlapping Connect replaced its done channel |
| SessionResults.NobodyLeftWaiting | internal/smpp/session.go:122-128 | Without overlapping Connects nobody is |
| SessionResults.RemovedExactly | internal/smpp/session.go:235-239 | A request loses its entry to another that gives up iff that happens while the table holds it under the number of the other |
| SessionResults.OverwrittenExactly | internal/smpp/session.go:156-165 | And to a new request iff that is enrolled while the table holds it under the new number |
| SessionResults.LostOnlyToOlder | internal/smpp/session.go:180-185 | Without overlapping Connects and carried-over numbers, a request loses its entry by giving up itself, or to a request of an earlier connection that gives up while the entry is there |
| SessionResults.QuietReconnectLosesNothing | internal/smpp/session.go:72-108 | And to none of these if every request had ended when its connection was bound |
| SessionResults.LostReply | internal/smpp/session.go:180-181 | A run in which that happens: an old request wakes late, removes a live entry of the same number, and the reply is thrown away |
| SessionResults.CarriedNumber | internal/smpp/session.go:137-149 | A run in which a number drawn before a reconnect overwrites the same number of the new connection |
| SessionResults.OverlapStrands | internal/smpp/session.go:72-108 | A run in which two overlapping Connects leave a request waiting for ever |
| Manager.Client.constructor | internal/smpp/client.go:48-92 | The configuration is that of the upstream, with the defaults |
| Manager.Manager.CollectDesired | internal/smpp/manager.go:48-53 | The active upstreams by name |
| Manager.DesiredIsLastActive | internal/smpp/manager.go:48-53 | A name is wanted iff some entry of it is active, and then by its last active entry |
| Manager.Manager.Refresh | internal/smpp/manager.go:43-86 | Keys are the active names and order their ascending list; clients wanted as they are stay the same untouched objects, others are closed once and let go, the rest are new |
| Manager.Manager.Default | internal/smpp/manager.go:94-101 | The client of the least name; an error iff there are no clients |
| Manager.Manager.SetDeliveryReceiptHandler | internal/smpp/manager.go:187-204 | From then on every client, present and future, reports under its own name, or none does |
| Manager.Manager.Start | internal/smpp/manager.go:206-219 | Every client runs, and so does every later one |
| Manager.Manager.Close | internal/smpp/manager.go:221-230 | Every client is closed once and none kept |
| Manager.Manager.StartAutoRefresh | internal/smpp/manager.go:131-146 | After any list of snapshots the configurations are the folded ones; snapshots that change nothing touch no client |
| Manager.ReconciledTwice | internal/smpp/manager.go:55-81 | A second refresh with the same snapshot changes nothing, and keeps every client |
| Manager.ServedAsConfigured | internal/smpp/manager.go:43-86 | After any run of refreshes exactly the names of the last snapshot are served, each submitting as a newly built client would: what its entry there asks for |
| Receipts.ReceiptStates | cmd/mmsc/main.go:427-443 | By the trimmed word in any letter case: delivered iff DELIVRD, failed iff EXPIRED, DELETED, UNDELIV, REJECTD or UNKNOWN, else pending; the exact error text of a failure, and none otherwise |
| Receipts.AggregateMessageStatus | cmd/mmsc/main.go:445-490 | The two loops over group maps, in any order: unreachable iff a submission failed, else delivered iff there is one and every group counts as many distinct delivered indices as its largest count |
| Receipts.Repository.HandleDeliveryReceipt | cmd/mmsc/main.go:393-425 | The new tables, attempted reports and result of every branch |
| Receipts.Repository.UpdateSubmissionReceipt | internal/db/sql.go:762-783 | Sets state and error text of one row; a missing row is an error |
| Receipts.Repository.CreateSubmission | internal/db/sql.go:725-760 | Refuses empty keys, defaults the count to one, replaces a row with the same key |
| Receipts.Repository.Track | internal/smpp/manager.go:171-184 | What tracking a segment records; without a message ID, nothing |
| ReceiptRuns.GroupKeyExact | cmd/mmsc/main.go:459-463 | Rows share a group iff upstream and recipient agree or one upstream name has a NUL in it that splits the same key elsewhere; for NUL-free names, iff they agree |
| ReceiptRuns.GroupKeyCollides | cmd/mmsc/main.go:459-459 | With a NUL in an upstream name two groups can merge |
| ReceiptRuns.FullMeansEveryIndex | cmd/mmsc/main.go:475-485 | With indices in range, counting distinct ones is the same as having all of 0..n-1 |
| ReceiptRuns.AggregateOfComplete | cmd/mmsc/main.go:445-490 | For completely recorded submissions: unreachable iff one failed, delivered iff all were delivered |
| ReceiptRuns.StateIsLatest | cmd/mmsc/main.go:393-401 | After any run of receipts a row is as recorded, with the state of the latest receipt for it |
| ReceiptRuns.LatestByWord | cmd/mmsc/main.go:427-443 | The state left by the latest receipt, by the word in it |
| ReceiptRuns.VerdictIsLatest | cmd/mmsc/main.go:405-413 | The verdict after any run, in terms of the latest receipt of each submission |
| ReceiptRuns.VerdictByIndex | cmd/mmsc/main.go:445-490 | The same for whatever rows there are, repeated segments and missing ones included: delivered iff there are rows, none failed last, and every segment of every group that has a row was delivered under some row |
| ReceiptRuns.DeliverableIff | cmd/mmsc/main.go:445-490 | Some run of receipts makes a message delivered iff it has rows and every group that has one has a row for each segment |
| ReceiptRuns.StatusIsLastVerdict | cmd/mmsc/main.go:393-425 | The status of a message is the last verdict that decided one, or what it was |
| ReceiptRuns.StatusAfterReceipt | cmd/mmsc/main.go:393-443 | A receipt makes a message unreachable iff the latest receipt of some submission says a word of failure, delivered iff that of every submission says DELIVRD, and otherwise changes no status |
| ReceiptRuns.ReportsAreEntries | cmd/mmsc/main.go:417-423 | Failure reports attempted equal entries into unreachable |
| ReceiptRuns.MissingSegmentBlocks | cmd/mmsc/main.go:475-485 | A segment that was never recorded keeps its message from being delivered, whatever receipts come |
| ReceiptRuns.DeliveredToAll | cmd/mmsc/main.go:445-490 | A message that reads delivered reached all its recipients iff each of them has a row; when each has one, and nobody else, it is delivered iff it reached them all and no row failed last |
| ReceiptRuns.NoRowsNoVerdict | cmd/mmsc/main.go:446-448 | A message without any row never gets a verdict |
| Tracking.RecordAllAt | internal/db/sql.go:725-760 | A row is that of the last segment tracked under its upstream and message ID, or was there before |
| Tracking.RecordingCompletes | internal/smpp/manager.go:171-184 | After any submits of one push, failed and repeated ones among them: all segments of these recipients are recorded iff each recipient has a segment whose ID was not given again, and no group has some of its segments without the others |
| Tracking.DeliverableAfter | internal/smpp/manager.go:171-184 | And some receipts make the message delivered iff some segment has a row and no group has some of its segments without the others |
| Tracking.MessageRecorded | internal/mm1/handler_mo.go:314-323 | After one push to each recipient all of them are completely recorded iff all segments of all of them together have IDs of their own |
| Tracking.UntrackedSubmit | internal/smpp/submit.go:42-54 | A message to one recipient can ever be delivered iff its segments have IDs of their own |
| Tracking.OneRecipientMissed | internal/mm1/handler_mo.go:314-323 | Two recipients, one without a message ID: the message reads delivered and that recipient has no row |
| Tracking.SharedIDMissed | internal/mm1/handler_mo.go:314-323 | Two recipients with the same message ID: the message reads delivered and the first has no row |
| Routing.Canonicalize | internal/routing/peer.go:124-138 | The rune loop computes the canonical number |
| Routing.CanonicalIdempotent | internal/routing/peer.go:124-138 | Digits after an optional plus; a second pass changes nothing |
| Routing.StripTypeExact | internal/routing/engine.go:127-132 | An address is cut in front of its first /TYPE= in any letter case, unless it begins with one |
| Routing.CanonicalIsDigits | internal/routing/peer.go:124-138 | A number is compared by its digits in order, and a plus sign in front |
| Routing.DomainExact | internal/routing/peer.go:140-145 | The domain is what follows the last "@", in small letters; none without |
| Routing.NumberMatches | internal/routing/peer.go:77-94 | An exact route is met by equal dialled digits, a prefix route by digits that begin with its own, neither by an address with an "@" |
| Routing.DomainMatches | internal/routing/peer.go:77-94 | A domain route is met by its domain in any letter case, or without a value by addresses without a domain; no other kind of route is met |
| Routing.BetterIsLexicographic | internal/routing/peer.go:96-122 | The comparison is lexicographic on rank, prefix length, priority and lower ID |
| Routing.BetterIsStrictTotal | internal/routing/peer.go:96-122 | A strict order, total on different IDs |
| Routing.MatchRoute | internal/routing/peer.go:60-75 | The loop computes the best of the routes |
| Routing.BestIsGreatest | internal/routing/peer.go:60-94 | The choice is an active match that no active match beats; there is one whenever there is a match |
| Routing.MatchOrderFree | internal/routing/peer.go:60-75 | It does not depend on the order of the list |
| Routing.Precedence | internal/routing/peer.go:96-109 | Exact beats prefix, longer prefix beats shorter, number beats domain, then priority, then ID |
| Routing.TiedPrefixesAreEqual | internal/routing/peer.go:86-106 | Matching prefixes of one length are the same prefix |
| Routing.Destinations | internal/routing/engine.go:51-78 | Where every address goes, in words of the tables: unknown, a table error, rejected or local without a matching route, else by the egress of a best route and, for MM4, the first live peer |
| Routing.PeerIsLive | internal/routing/peer.go:23-45 | A result has a peer iff it is MM4; the peer is active, and its domain is the target of the best route |
| Routing.TypeSuffixIgnored | internal/routing/engine.go:127-132 | A /TYPE= suffix, in any letter case, does not change where an address goes |
| Routing.RecipientsMustAgree | internal/routing/engine.go:80-125 | Without lookup errors a message is routed iff all recipients agree, for MM4 on peers with the same domain, host and port, and then as the first is |
| Routing.RecipientOrderFree | internal/routing/engine.go:80-125 | Reordering or repeating recipients changes neither success nor, up to equivalent peers, the result |
| Retrieval.StripSMILParts | internal/mmspdu/pdu_retrieve.go:21-32 | The loop keeps the media parts in order, or all when there are none |
| Retrieval.StrippedTwice | internal/mmspdu/pdu_retrieve.go:21-32 | Twice is once; a part of SMIL type, in any letter case, is kept iff all parts are SMIL |
| Retrieval.RetrieveConfWellFormed | internal/mmspdu/pdu_retrieve.go:5-17 | It can be read back iff the transaction ID is NUL-free and the parts can be framed |
| Retrieval.PartsToPDU | internal/mm1/handler_mt.go:260-277 | The loop builds the header maps part by part |
| Retrieval.MessagePartsOf | internal/mm1/handler_mo.go:463-483 | The loop copies content ID, location and data |
| Retrieval.PersistLocalContent | internal/mm1/handler_mo.go:425-441 | Which messages are stored, under which path, with which bytes and size; every error leaves store and message alone |
| Retrieval.ConfirmationBytes | internal/mmspdu/pdu_retrieve.go:5-17 | What is stored, in bytes: type, transaction ID, version 1.3, multipart.mixed and the surviving parts |
| Retrieval.LoadParts | internal/mm1/handler_mt.go:232-258 | The parts at hand, or those decoded from the store; every error |
| Retrieval.PartRestored | internal/mm1/handler_mt.go:260-277 | Part by part, normalising is: media type normalised, content ID bracketed, location and data kept |
| Retrieval.NulSplits | internal/mmspdu/codec.go:226-253 | A transaction ID with a NUL ends there, and what follows the NUL is read as headers |
| Retrieval.StoreThenLoad | internal/mm1/handler_mo.go:425-441 | What is stored loads as the surviving parts in order, each restored, iff these can be framed; with a NUL in the transaction ID at its end or in front of ASCII text, nothing loads |
| Retrieval.LoadedServable | internal/mm1/handler_mt.go:72-72 | What was loaded, stripped once more, can be framed again |
| Response.ResponseFor | internal/mm1/handler_mt.go:72-92 | The response with the headers the handler adds: status, message ID, sender, first recipient, date and subject as far as known |
| Response.ResponseWellFormed | internal/mm1/handler_mt.go:72-92 | It can be read back iff its strings are NUL-free, its From value delimits itself and its parts can be framed |
| Response.ResponseRead | internal/mm1/handler_mt.go:72-92 | Then every header, by its code, reads as it was meant, the date iff it does not look like a date token, the sender iff its length byte is recoverable |
| Response.StoreThenRetrieve | internal/mm1/handler_mt.go:50-107 | From store to handset: decoded as meant iff the headers are readable and what is left of the parts can be framed, and then with every header, and with every surviving part iff the types of none or of all of them trim to SMIL |
| Retrieval.PaddedSmilLost | internal/mmspdu/pdu_retrieve.go:21-32 | A concrete loss: a SMIL type with a leading space is stored, then dropped when served |

## Left out

- Text is ASCII wherever letters are folded or spaces trimmed: `ToLower`, `ToUpper`, `EqualFold`, `TrimSpace` and `unicode.IsDigit` on other characters are not modelled.
- Lengths are unbounded integers; overflow of Go's `int` is not modelled, and neither is overflow of a duration in seconds.
- A nil PDU is not a value of the model, and nil slices and maps are the empty ones.
- `Time()` is left out, and `NewDateValue` takes the seconds that a `time.Time` stands for; the expiry and the class of a notification are inputs.
- The random segment reference, sequence numbers, the answers of upstream, tracker and reporter, and storage paths are inputs.
- Submit.SubmitWAPPush: the sequence numbers and answers of one submit are given as lists, one for each segment; when they are drawn and arrive is part of the session model.
- SessionResults.ReplyCorrelation: needs numbers drawn from the connection they are sent on, fewer than 2^32 of them, and a reply read from that connection; CarriedNumber and LateReadLoop are runs without.
- Tracking.RecordingCompletes: all submits are of one push, so that segment counts agree; a message dispatched again with another number of segments is not covered.
- Tracking.MessageRecorded: each recipient is sent to once, and completely; RecordingCompletes covers the rest.
- Receipts that arrive while a message is still being submitted, and the status the handler sets when it is done.
- Network reads and writes, dialling, binding deadlines, goroutine scheduling, blocking and contexts; only the effects on shared state are modelled.
- Manager.Manager.Start: starts the clients in one step, where the source releases the lock first.
- Manager.Manager.StartAutoRefresh: the channel of snapshots is a list.
- The background loop of a client (reconnect and enquire_link) and its timers.
- Routing.RecipientsMustAgree: the tables do not change between the lookups of one message.
- Database failures other than a missing row, and the event log.
- Parsing of the receipt text, so a receipt starts as its ID, status and error.
- HTTP, SMTP, SOAP, MM3, MM4 and MM7 interfaces, adaptation and transcoding, the tiered store, configuration, metrics and the web interface.
- Retrieval.StoreThenLoad: does not say what loads when the first NUL of a transaction ID stands in front of a byte from 0x80 on, where the rest of the ID is read as headers of its own making.
- Response.StoreThenRetrieve: the adaptation step, the status update and the HTTP answers are skipped.
- That a terminal status stays terminal is not claimed: any receipt or operator may change it.
