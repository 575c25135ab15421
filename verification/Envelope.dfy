/** Event envelopes: wire format, commitment and the three constructors
    (crates/pardosa/src/encoding.rs:703-1010). */
module Envelope {
  import opened Wire

  datatype EnvelopeHeader = EnvelopeHeader(
    eventId: Id, fiberId: Id, detached: bool, precursor: Id, precursorHash: Digest)

  datatype EventEnvelope = EventEnvelope(header: EnvelopeHeader, payload: Bytes)

  // ---- Wire format ----

  function FlagByte(b: bool): byte {
    if b then 0x01 else 0x00
  }

  function EncodeHeader(h: EnvelopeHeader): (b: Bytes)
    ensures |b| == 81
  {
    h.eventId + (h.fiberId + ([FlagByte(h.detached)] + (h.precursor + h.precursorHash)))
  }

  function TakeId(s: Bytes): Parsed<Id> {
    if |s| < 16 then Err(TruncatedHeader) else Ok((s[..16], s[16..]))
  }

  function ParseHeader(s: Bytes): Parsed<EnvelopeHeader> {
    if |s| < 81 then Err(TruncatedHeader)
    else if s[32] > 0x01 then Err(InvalidBooleanDiscriminant)
    else Ok((EnvelopeHeader(s[0..16], s[16..32], s[32] == 0x01, s[33..49], s[49..81]), s[81..]))
  }

  /** The bytes of an envelope, whether or not the encoder would emit them. */
  function WireForm(e: EventEnvelope): Bytes {
    EncodeHeader(e.header) + (Le(|e.payload|, 4) + e.payload)
  }

  predicate WireLenFits(payload: Bytes) {
    |payload| + 85 <= U32_MAX
  }

  function EncodeEnvelope(e: EventEnvelope): Result<Bytes, DecodeError> {
    if !WireLenFits(e.payload) then Err(ValueConstraintViolated(TooLong)) else Ok(WireForm(e))
  }

  function ParseEnvelope(s: Bytes): Parsed<EventEnvelope> {
    var (h, r) :- ParseHeader(s);
    if |r| < 4 then Err(TruncatedHeader) else
    var (n, r) :- TakeU32(r);
    var (p, r) :- Take(n, r);
    Ok((EventEnvelope(h, p), r))
  }

  lemma HeaderFields(h: EnvelopeHeader, r: Bytes)
    ensures var s := EncodeHeader(h) + r;
            && |s| == 81 + |r| && s[81..] == r
            && s[0..16] == h.eventId && s[16..32] == h.fiberId && s[32] == FlagByte(h.detached)
            && s[33..49] == h.precursor && s[49..81] == h.precursorHash
  {
  }

  lemma HeaderExact(s: Bytes, h: EnvelopeHeader, r: Bytes)
    ensures ParseHeader(s) == Ok((h, r)) <==> s == EncodeHeader(h) + r
  {
    if s == EncodeHeader(h) + r {
      HeaderFields(h, r);
    }
    if ParseHeader(s) == Ok((h, r)) {
      assert s == s[0..16] + (s[16..32] + ([s[32]] + (s[33..49] + s[49..81]))) + s[81..];
    }
  }

  lemma HeaderInjective(g: EnvelopeHeader, h: EnvelopeHeader, p: Bytes, q: Bytes)
    requires EncodeHeader(g) + p == EncodeHeader(h) + q
    ensures g == h && p == q
  {
    HeaderExact(EncodeHeader(g) + p, g, p);
    HeaderExact(EncodeHeader(g) + p, h, q);
  }

  /** The decoder accepts exactly the wire forms whose payload length fits four bytes, which
      is 85 lengths more than the encoder emits. */
  lemma EnvelopeCodecExact(s: Bytes, e: EventEnvelope, r: Bytes)
    ensures ParseEnvelope(s) == Ok((e, r)) <==> |e.payload| <= U32_MAX && s == WireForm(e) + r
    ensures EncodeEnvelope(e).Ok? ==> ParseEnvelope(EncodeEnvelope(e).value + r) == Ok((e, r))
  {
    if ParseEnvelope(s) == Ok((e, r)) {
      EnvelopeOfParse(s);
    }
    if |e.payload| <= U32_MAX {
      ParseOfEnvelope(e, r);
    }
  }

  lemma ParseOfEnvelope(e: EventEnvelope, r: Bytes)
    requires |e.payload| <= U32_MAX
    ensures ParseEnvelope(WireForm(e) + r) == Ok((e, r))
  {
    var n := Le(|e.payload|, 4);
    Assoc4(EncodeHeader(e.header), n, e.payload, r);
    HeaderExact(WireForm(e) + r, e.header, n + (e.payload + r));
    TakeU32Exact(n + (e.payload + r), |e.payload|, e.payload + r);
    TakeExact(|e.payload|, e.payload + r, e.payload, r);
  }

  lemma EnvelopeOfParse(s: Bytes)
    requires ParseEnvelope(s).Ok?
    ensures var (e, r) := ParseEnvelope(s).value; |e.payload| <= U32_MAX && s == WireForm(e) + r
  {
    var (e, r) := ParseEnvelope(s).value;
    var (h, q) := ParseHeader(s).value;
    var (n, q') := TakeU32(q).value;
    HeaderExact(s, h, q);
    TakeU32Exact(q, n, q');
    TakeExact(n, q', e.payload, r);
    Assoc4(EncodeHeader(h), Le(n, 4), e.payload, r);
  }

  // ---- Commitment ----

  function Preimage(e: EventEnvelope): Bytes {
    EncodeHeader(e.header) + e.payload
  }

  function Commitment(e: EventEnvelope): Digest {
    Blake3(Preimage(e))
  }

  /** No separator is needed between header and payload: the header has a fixed length. */
  lemma PreimageInjective(d: EventEnvelope, e: EventEnvelope)
    requires Preimage(d) == Preimage(e)
    ensures d == e
  {
    HeaderInjective(d.header, e.header, d.payload, e.payload);
  }

  // ---- Constructors ----

  function Genesis(eventId: Id, fiberId: Id, payload: Bytes): Result<EventEnvelope, DecodeError> {
    if eventId == ZERO_ID then Err(ValueConstraintViolated(Empty)) else
    if !WireLenFits(payload) then Err(ValueConstraintViolated(TooLong)) else
    Ok(EventEnvelope(EnvelopeHeader(eventId, fiberId, false, ZERO_ID, ZERO_DIGEST), payload))
  }

  /** `chain` and `chain_detached` differ in the flag only. */
  function Chain(p: EventEnvelope, eventId: Id, payload: Bytes, detached: bool): Result<EventEnvelope, DecodeError> {
    if eventId == ZERO_ID || p.header.eventId == ZERO_ID then Err(ValueConstraintViolated(Empty)) else
    if !WireLenFits(payload) then Err(ValueConstraintViolated(TooLong)) else
    Ok(EventEnvelope(EnvelopeHeader(eventId, p.header.fiberId, detached, p.header.eventId, Commitment(p)), payload))
  }

  // ---- What is built and what can be written ----

  /** An envelope is written exactly when its whole wire form fits a four-byte length. */
  lemma EncodableIff(e: EventEnvelope)
    ensures |WireForm(e)| == 85 + |e.payload|
    ensures EncodeEnvelope(e) == if |WireForm(e)| <= U32_MAX then Ok(WireForm(e)) else Err(ValueConstraintViolated(TooLong))
  {
  }

  /** A genesis is exactly the writable, attached envelope with these ids and this payload that
      names no precursor; a zero id gives none. */
  lemma GenesisExact(eventId: Id, fiberId: Id, payload: Bytes, e: EventEnvelope)
    ensures Genesis(eventId, fiberId, payload) == Ok(e) <==>
              && eventId != ZERO_ID && EncodeEnvelope(e).Ok?
              && e.header.eventId == eventId && e.header.fiberId == fiberId && !e.header.detached
              && e.header.precursor == ZERO_ID && e.header.precursorHash == ZERO_DIGEST
              && e.payload == payload
    ensures eventId == ZERO_ID ==> Genesis(eventId, fiberId, payload) == Err(ValueConstraintViolated(Empty))
  {
  }

  /** A chained event is exactly the writable envelope with this id, flag and payload on the
      fiber of its precursor that names it and commits to it. */
  lemma ChainExact(p: EventEnvelope, eventId: Id, payload: Bytes, detached: bool, e: EventEnvelope)
    ensures Chain(p, eventId, payload, detached) == Ok(e) <==>
              && eventId != ZERO_ID && p.header.eventId != ZERO_ID && EncodeEnvelope(e).Ok?
              && e.header.eventId == eventId && e.header.fiberId == p.header.fiberId && e.header.detached == detached
              && e.header.precursor == p.header.eventId && e.header.precursorHash == Commitment(p)
              && e.payload == payload
    ensures eventId == ZERO_ID ==> Chain(p, eventId, payload, detached) == Err(ValueConstraintViolated(Empty))
  {
  }

  /** How bytes that hold no envelope are refused. */
  lemma EnvelopeRefusals(s: Bytes)
    ensures |s| < 85 && (|s| >= 81 ==> s[32] <= 1) ==> ParseEnvelope(s) == Err(TruncatedHeader)
    ensures |s| >= 81 && s[32] > 1 ==> ParseEnvelope(s) == Err(InvalidBooleanDiscriminant)
    ensures |s| >= 85 && s[32] <= 1 && FromLe(s[81..85]) > |s| - 85 ==> ParseEnvelope(s) == Err(TruncatedPayload)
  {
    hide Le, FromLe;
    if |s| >= 85 {
      assert s[81..][..4] == s[81..85];
    }
  }
}
