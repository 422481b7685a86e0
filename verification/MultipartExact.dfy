/**
 When a multipart body is read back, for any body at all.
 */
module MultipartExact {
  import opened Bytes
  import opened Fields
  import opened Multipart
  import opened MultipartLaws

  /** A frame is read back exactly when both of its lengths are. */
  lemma FrameExact(block: bytes, data: bytes, suffix: bytes)
    ensures var r := ParseFrame(Uintvar(|block|) + (Uintvar(|data|) + (block + data)) + suffix);
            if |block| < UINTVAR_BOUND && |data| < UINTVAR_BOUND then r == Ok(Parsed(Frame(block, data), suffix))
            else r.Err?
  {
    hide ParseUintvar, Uintvar, ParseFrame;
    if |block| < UINTVAR_BOUND && |data| < UINTVAR_BOUND {
      FrameRoundTrip(block, data, suffix);
    } else {
      var rest := Uintvar(|data|) + (block + data + suffix);
      FrameConcat(Uintvar(|block|), Uintvar(|data|), block + data, suffix);
      UintvarExact(|block|, rest);
      UintvarExact(|data|, block + data + suffix);
      FrameFails(Uintvar(|block|) + rest, rest);
    }
  }

  lemma FrameFails(s: bytes, rest: bytes)
    requires ParseUintvar(s).Err? || (ParseUintvar(s).value.rest == rest && ParseUintvar(rest).Err?)
    ensures ParseFrame(s).Err?
  {
    hide ParseUintvar;
  }

  /** A part is read back, normalised, exactly when its strings are NUL-free and its lengths fit. */
  lemma PartExact(p: Part, suffix: bytes)
    ensures var r := ParsePart(PartBytes(p) + suffix);
            && (r == Ok(Parsed(NormalPart(p), suffix)) <==> WritablePart(p) && FitsFrame(p))
            && (r.Ok? && r.value.value == NormalPart(p) ==> r.value.rest == suffix)
  {
    hide ParseFrame, DecodePartHeaderBlock, PartHeaderBlock, Uintvar, WritablePart, NormalPart;
    var block := PartHeaderBlock(p, Lowered(p.headers));
    FrameExact(block, p.data, suffix);
    if FitsFrame(p) {
      if WritablePart(p) { PartRoundTrip(p, suffix); }
      DecodedPartWritable(block);
      SameWritable(p);
      if DecodePartHeaderBlock(block).Ok? {
        WritableWithData(DecodePartHeaderBlock(block).value, p.data);
      }
    }
  }

  lemma {:induction false} PartsExact(parts: seq<Part>, done: seq<Part>, suffix: bytes)
    ensures var r := ParseParts(PartsBytes(parts) + suffix, |parts|, done);
            r.Ok? && r.value.value == done + NormalParts(parts) <==>
            forall p | p in parts :: WritablePart(p) && FitsFrame(p)
    decreases |parts|
  {
    hide ParsePart, PartBytes, NormalPart, WritablePart, FitsFrame;
    if forall p | p in parts :: WritablePart(p) && FitsFrame(p) {
      PartsRoundTrip(parts, done, suffix);
    } else {
      var rest := PartsBytes(parts[1..]) + suffix;
      ConcatAssociative(PartBytes(parts[0]), PartsBytes(parts[1..]), suffix);
      PartExact(parts[0], rest);
      FirstPart(PartBytes(parts[0]) + rest, |parts|, done);
      assert (done + NormalParts(parts))[|done|] == NormalPart(parts[0]);
      PartsExact(parts[1..], done + [NormalPart(parts[0])], suffix);
      assert done + [NormalPart(parts[0])] + NormalParts(parts[1..]) == done + NormalParts(parts);
    }
  }

  /** The part read first stays where it is put. */
  lemma FirstPart(s: bytes, count: nat, done: seq<Part>)
    requires count > 0
    ensures ParseParts(s, count, done).Ok? ==>
              && ParsePart(s).Ok?
              && |ParseParts(s, count, done).value.value| > |done|
              && ParseParts(s, count, done).value.value[|done|] == ParsePart(s).value.value
  {
    hide ParsePart;
    if ParseParts(s, count, done).Ok? {
      var part := ParsePart(s).value;
      var _ := PartsUsed(part.rest, count - 1, done + [part.value]);
      assert (done + [part.value])[|done|] == part.value;
    }
  }

  /** A body is read back, normalised and whatever follows it, exactly when it is encodable. */
  lemma BodyExact(b: MultipartBody, suffix: bytes)
    ensures DecodeBody(MultipartBytes(b) + suffix) == Ok(NormalBody(b)) <==> EncodableBody(b)
  {
    hide ParseUintvar, ParseParts, PartsBytes, Uintvar, WritablePart, FitsFrame, NormalParts;
    if EncodableBody(b) {
      MultipartRoundTrip(b, suffix);
    } else {
      var count := Uintvar(|b.parts|);
      UintvarNotEmpty(|b.parts|);
      ConcatAssociative(count, PartsBytes(b.parts), suffix);
      UintvarExact(|b.parts|, PartsBytes(b.parts) + suffix);
      PartsBytesLength(b.parts);
      PartsExact(b.parts, [], suffix);
      assert [] + NormalParts(b.parts) == NormalParts(b.parts);
    }
  }
}
