/** Fixed-size envelopes (crates/sequencer/src/envelope.rs). */
module Envelope {
  import opened Wrappers
  import opened ModArith
  import opened Words
  import opened Digests

  const HEADER_LEN: nat := 39
  const U_MAX: nat := 256
  const BODY_OFFSET: nat := 382
  const U16_MAX: nat := 0xffff

  datatype Ticket = Ticket(id: Bytes, denomination: nat, bucket: Bucket, issuerSig: Bytes)

  /** A timelock ciphertext as it travels: its body is opaque bytes here. */
  datatype Ciphertext = Ciphertext(delayClass: nat, u: nat, body: Bytes)

  datatype EnvelopeData = EnvelopeData(bucket: Bucket, namespace: nat, window: Window, delayClass: nat, nonce: Bytes,
                                       ticket: Ticket, ciphertext: Ciphertext)

  datatype EnvelopeError = WrongSize | BadMagic | BadVersion | BadBucket | BadField

  function BucketByte(b: Bucket): Byte { if b.Majors? then 0 else 1 }

  function BucketOf(b: Byte): Option<Bucket> {
    if b == 0 then Some(Majors) else if b == 1 then Some(LongTail) else None
  }

  // ----- integers as bytes

  function ByteLength(x: nat): nat {
    if x < 256 then 1 else 1 + ByteLength(x / 256)
  }

  /** `to_bytes_be`: no leading zeros, and a single zero byte for zero. */
  function MinimalBytes(x: nat): (s: Bytes)
    ensures |s| == ByteLength(x)
  {
    ToBytes(x, ByteLength(x))
  }

  lemma {:induction false} MinimalBytesValue(x: nat)
    ensures Value(MinimalBytes(x)) == x
  {
    ByteLengthSuffices(x);
    ValueOfToBytes(x, ByteLength(x));
  }

  lemma {:induction false} ByteLengthSuffices(x: nat)
    ensures x < Pow(256, ByteLength(x))
  {
    if x >= 256 {
      ByteLengthSuffices(x / 256);
    } else {
      assert Pow(256, 1) == 256 * Pow(256, 0);
    }
  }

  /** The fixed-width fields fit their widths: what the Rust types guarantee. */
  ghost predicate Typed(e: EnvelopeData) {
    && e.namespace < Pow(256, 8) && e.window.start < Pow(256, 8) && e.window.len < Pow(256, 2)
    && e.delayClass < 256 && |e.nonce| == 16
    && |e.ticket.id| == 16 && e.ticket.denomination < 256 && |e.ticket.issuerSig| == 65
  }

  /** The body fits the envelope, and u its field. */
  predicate Fits(e: EnvelopeData, size: nat) {
    && ByteLength(e.ciphertext.u) <= U_MAX
    && BODY_OFFSET + |e.ciphertext.body| <= size && |e.ciphertext.body| <= U16_MAX
  }

  // ----- encoding

  function HeaderPrefix(bucket: Bucket, namespace: nat, window: Window, delayClass: nat, nonce: Bytes): (s: Bytes)
    requires |nonce| == 16 && delayClass < 256
    ensures |s| == HEADER_LEN
  {
    [0x50, 0x51, 1, BucketByte(bucket)] + ToBytes(namespace, 8) + ToBytes(window.start, 8) + ToBytes(window.len, 2)
      + [delayClass] + nonce
  }

  function Zeros(n: nat): (s: Bytes)
    ensures |s| == n
  {
    seq(n, _ => 0)
  }

  function TicketBytes(t: Ticket): (s: Bytes)
    requires |t.id| == 16 && t.denomination < 256 && |t.issuerSig| == 65
    ensures |s| == 83
  {
    t.id + [t.denomination, BucketByte(t.bucket)] + t.issuerSig
  }

  function UBytes(u: nat): (s: Bytes)
    requires ByteLength(u) <= U_MAX
    ensures |s| == 2 + U_MAX
  {
    ToBytes(ByteLength(u), 2) + Zeros(U_MAX - ByteLength(u)) + MinimalBytes(u)
  }

  /** The byte string an envelope encodes to. */
  function Layout(e: EnvelopeData, size: nat): (s: Bytes)
    requires |e.nonce| == 16 && e.delayClass < 256
    requires |e.ticket.id| == 16 && e.ticket.denomination < 256 && |e.ticket.issuerSig| == 65
    requires Fits(e, size)
    ensures |s| == size
  {
    HeaderPrefix(e.bucket, e.namespace, e.window, e.delayClass, e.nonce) + TicketBytes(e.ticket)
      + UBytes(e.ciphertext.u) + ToBytes(|e.ciphertext.body|, 2) + e.ciphertext.body
      + Zeros(size - BODY_OFFSET - |e.ciphertext.body|)
  }

  /** Everything after the bytes written so far is still zero. */
  ghost predicate WrittenTo(out: seq<Byte>, written: Bytes) {
    |written| <= |out| && out == written + Zeros(|out| - |written|)
  }

  /** `copy_from_slice`, at or beyond the end of what is written. */
  method Put(out: array<Byte>, at: nat, s: Bytes, ghost written: Bytes)
    requires WrittenTo(out[..], written) && |written| <= at && at + |s| <= out.Length
    modifies out
    ensures WrittenTo(out[..], written + Zeros(at - |written|) + s)
  {
    ghost var before := out[..];
    forall i | 0 <= i < |s| {
      out[at + i] := s[i];
    }
    assert out[..at] == before[..at] == written + Zeros(at - |written|);
    assert out[at..at + |s|] == s;
    assert out[at + |s|..] == before[at + |s|..] == Zeros(out.Length - at - |s|);
    assert out[..] == out[..at] + out[at..at + |s|] + out[at + |s|..];
  }

  method Encode(e: EnvelopeData, size: nat) returns (r: Result<Bytes, EnvelopeError>)
    requires Typed(e)
    ensures r == if ByteLength(e.ciphertext.u) > U_MAX then Err(BadField)
                 else if !Fits(e, size) then Err(WrongSize)
                 else Ok(Layout(e, size))
  {
    hide Layout;
    hide ToBytes;
    var uBytes := MinimalBytes(e.ciphertext.u);
    if |uBytes| > U_MAX {
      return Err(BadField);
    }
    var body := e.ciphertext.body;
    if BODY_OFFSET + |body| > size || |body| > U16_MAX {
      return Err(WrongSize);
    }
    var out := new Byte[size](_ => 0);
    assert WrittenTo(out[..], []);
    var header := HeaderPrefix(e.bucket, e.namespace, e.window, e.delayClass, e.nonce);
    Put(out, 0, header, []);
    ghost var w1 := [] + Zeros(0) + header;
    Put(out, 39, TicketBytes(e.ticket), w1);
    ghost var w2 := w1 + Zeros(0) + TicketBytes(e.ticket);
    Put(out, 122, ToBytes(|uBytes|, 2), w2);
    ghost var w3 := w2 + Zeros(0) + ToBytes(|uBytes|, 2);
    Put(out, 124 + (U_MAX - |uBytes|), uBytes, w3);
    ghost var w4 := w3 + Zeros(U_MAX - |uBytes|) + uBytes;
    Put(out, 380, ToBytes(|body|, 2), w4);
    ghost var w5 := w4 + Zeros(0) + ToBytes(|body|, 2);
    Put(out, BODY_OFFSET, body, w5);
    WrittenIsLayout(e, size, w5 + Zeros(0) + body, out[..]);
    r := Ok(out[..]);
  }

  lemma WrittenIsLayout(e: EnvelopeData, size: nat, written: Bytes, out: Bytes)
    requires Typed(e) && Fits(e, size) && |out| == size && WrittenTo(out, written)
    requires var u := MinimalBytes(e.ciphertext.u);
             written == [] + Zeros(0) + HeaderPrefix(e.bucket, e.namespace, e.window, e.delayClass, e.nonce)
                        + Zeros(0) + TicketBytes(e.ticket) + Zeros(0) + ToBytes(|u|, 2) + Zeros(U_MAX - |u|) + u
                        + Zeros(0) + ToBytes(|e.ciphertext.body|, 2) + Zeros(0) + e.ciphertext.body
    ensures out == Layout(e, size)
  {}

  // ----- decoding

  function Decode(bytes: Bytes, expectedSize: nat): Result<EnvelopeData, EnvelopeError>
    requires expectedSize >= BODY_OFFSET
  {
    if |bytes| != expectedSize then Err(WrongSize)
    else if bytes[0..2] != [0x50, 0x51] then Err(BadMagic)
    else if bytes[2] != 1 then Err(BadVersion)
    else if BucketOf(bytes[3]).None? || BucketOf(bytes[56]).None? then Err(BadBucket)
    else
      var window := Window(Value(bytes[12..20]), Value(bytes[20..22]));
      var uLen := Value(bytes[122..124]);
      var bodyLen := Value(bytes[380..382]);
      if window.len == 0 || uLen > U_MAX || BODY_OFFSET + bodyLen > expectedSize then Err(BadField)
      else if exists i | BODY_OFFSET + bodyLen <= i < |bytes| :: bytes[i] != 0 then Err(BadField)
      else
        var ticket := Ticket(bytes[39..55], bytes[55], BucketOf(bytes[56]).value, bytes[57..122]);
        var u := Value(bytes[124 + (U_MAX - uLen)..124 + U_MAX]);
        Ok(EnvelopeData(BucketOf(bytes[3]).value, Value(bytes[4..12]), window, bytes[22], bytes[23..39], ticket,
                        Ciphertext(bytes[22], u, bytes[BODY_OFFSET..BODY_OFFSET + bodyLen])))
  }

  /** The pieces of a layout, where decoding looks for them. */
  lemma LayoutHeader(e: EnvelopeData, size: nat)
    requires Typed(e) && Fits(e, size)
    ensures var s := Layout(e, size);
            && s[..HEADER_LEN] == HeaderPrefix(e.bucket, e.namespace, e.window, e.delayClass, e.nonce)
            && s[0..2] == [0x50, 0x51] && s[2] == 1 && s[3] == BucketByte(e.bucket)
            && s[4..12] == ToBytes(e.namespace, 8) && s[12..20] == ToBytes(e.window.start, 8)
            && s[20..22] == ToBytes(e.window.len, 2) && s[22] == e.delayClass && s[23..39] == e.nonce
  {
    var s := Layout(e, size);
    var h := HeaderPrefix(e.bucket, e.namespace, e.window, e.delayClass, e.nonce);
    assert s[..39] == h;
    assert s[0..2] == h[0..2] && s[4..12] == h[4..12] && s[12..20] == h[12..20] && s[20..22] == h[20..22]
        && s[23..39] == h[23..39];
  }

  lemma LayoutTicket(e: EnvelopeData, size: nat)
    requires Typed(e) && Fits(e, size)
    ensures var s := Layout(e, size);
            && s[39..55] == e.ticket.id && s[55] == e.ticket.denomination
            && s[56] == BucketByte(e.ticket.bucket) && s[57..122] == e.ticket.issuerSig
  {
    var s := Layout(e, size);
    var t := TicketBytes(e.ticket);
    assert s[39..122] == t;
    assert s[39..55] == t[..16] && s[57..122] == t[18..];
  }

  lemma LayoutBody(e: EnvelopeData, size: nat)
    requires Typed(e) && Fits(e, size)
    ensures var s := Layout(e, size); var k := ByteLength(e.ciphertext.u); var b := |e.ciphertext.body|;
            && s[122..124] == ToBytes(k, 2) && s[124 + (U_MAX - k)..124 + U_MAX] == MinimalBytes(e.ciphertext.u)
            && s[380..382] == ToBytes(b, 2) && s[BODY_OFFSET..BODY_OFFSET + b] == e.ciphertext.body
            && forall i | BODY_OFFSET + b <= i < |s| :: s[i] == 0
  {
    var s := Layout(e, size);
    var k := ByteLength(e.ciphertext.u);
    var ub := UBytes(e.ciphertext.u);
    assert s[122..380] == ub;
    assert s[122..124] == ub[..2] && s[124 + (U_MAX - k)..124 + U_MAX] == ub[2 + (U_MAX - k)..];
    assert ub[2 + (U_MAX - k)..] == MinimalBytes(e.ciphertext.u);
  }

  /** Round trip, exactly: an encoded envelope decodes to itself if and only if
      its window is not empty and its ciphertext is of the visible delay class. */
  lemma RoundTripIff(e: EnvelopeData, size: nat)
    requires Typed(e) && Fits(e, size)
    ensures Decode(Layout(e, size), size) == Ok(e) <==> e.window.len > 0 && e.ciphertext.delayClass == e.delayClass
  {
    hide Layout;
    hide HeaderPrefix;
    hide TicketBytes;
    hide UBytes;
    hide MinimalBytes;
    hide ToBytes;
    hide Value;
    LayoutHeader(e, size);
    LayoutTicket(e, size);
    LayoutBody(e, size);
    ValueOfToBytes(e.namespace, 8);
    ValueOfToBytes(e.window.start, 8);
    ValueOfToBytes(e.window.len, 2);
    TwoByteLengths(ByteLength(e.ciphertext.u), |e.ciphertext.body|);
    MinimalBytesValue(e.ciphertext.u);
  }

  lemma TwoByteLengths(k: nat, b: nat)
    requires k <= U_MAX && b <= U16_MAX
    ensures Value(ToBytes(k, 2)) == k && Value(ToBytes(b, 2)) == b
  {
    assert Pow(256, 2) == 256 * Pow(256, 1) && Pow(256, 1) == 256 * Pow(256, 0);
    ValueOfToBytes(k, 2);
    ValueOfToBytes(b, 2);
  }

  /** The associated data the solver cuts from the bytes is what the client
      sealed under. */
  lemma HeaderIsAssociatedData(e: EnvelopeData, size: nat)
    requires Typed(e) && Fits(e, size)
    ensures Layout(e, size)[..HEADER_LEN] == HeaderPrefix(e.bucket, e.namespace, e.window, e.delayClass, e.nonce)
  {
    LayoutHeader(e, size);
  }

  /** Decoding is not injective: bytes in front of a short u are ignored. */
  lemma PaddingOfUIgnored(e: EnvelopeData, size: nat)
    requires Typed(e) && Fits(e, size) && e.window.len > 0 && e.ciphertext.delayClass == e.delayClass
    requires ByteLength(e.ciphertext.u) < U_MAX
    ensures var s := Layout(e, size); s[124 := 1] != s && Decode(s[124 := 1], size) == Decode(s, size)
  {
    var s := Layout(e, size);
    var t := s[124 := 1];
    LayoutBody(e, size);
    assert s[124] == UBytes(e.ciphertext.u)[2] == 0;
    TwoByteLengths(ByteLength(e.ciphertext.u), |e.ciphertext.body|);
    var k := Value(s[122..124]);
    assert t[0..2] == s[0..2] && t[12..20] == s[12..20] && t[20..22] == s[20..22] && t[122..124] == s[122..124];
    assert t[380..382] == s[380..382] && t[39..55] == s[39..55] && t[57..122] == s[57..122];
    assert t[4..12] == s[4..12] && t[23..39] == s[23..39];
    assert t[124 + (U_MAX - k)..124 + U_MAX] == s[124 + (U_MAX - k)..124 + U_MAX];
    assert t[BODY_OFFSET..BODY_OFFSET + |e.ciphertext.body|] == s[BODY_OFFSET..BODY_OFFSET + |e.ciphertext.body|];
    assert forall i | BODY_OFFSET <= i < |s| :: t[i] == s[i];
  }

  // ----- which bytes are an encoding

  /** The length and the bytes of u, as decoding reads them. */
  function ULength(bytes: Bytes): nat
    requires |bytes| >= BODY_OFFSET
  {
    Value(bytes[122..124])
  }

  function UField(bytes: Bytes): Bytes
    requires |bytes| >= BODY_OFFSET && ULength(bytes) <= U_MAX
  {
    bytes[124 + (U_MAX - ULength(bytes))..124 + U_MAX]
  }

  /** The u field is written the one way encoding writes it: its length counts at
      least one byte and no leading zero byte, and what precedes it is zero. */
  predicate CanonicalU(bytes: Bytes)
    requires |bytes| >= BODY_OFFSET
  {
    var k := ULength(bytes);
    && 1 <= k <= U_MAX && (k == 1 || bytes[380 - k] != 0)
    && forall i | 124 <= i < 380 - k :: bytes[i] == 0
  }

  /** A byte string is minimal for its value exactly when it has one byte or does
      not start with zero. */
  lemma {:induction false} MinimalIff(s: Bytes)
    requires s != []
    ensures ByteLength(Value(s)) <= |s|
    ensures ByteLength(Value(s)) == |s| <==> |s| == 1 || s[0] != 0
  {
    var front := s[..|s| - 1];
    if front != [] {
      MinimalIff(front);
      LeadingByte(front);
    }
  }

  lemma {:induction false} LeadingByte(s: Bytes)
    requires s != []
    ensures s[0] != 0 ==> Value(s) > 0
    ensures |s| == 1 ==> Value(s) == s[0]
  {
    if |s| > 1 {
      LeadingByte(s[..|s| - 1]);
    } else {
      assert s[..0] == [];
    }
  }

  /** Whatever decodes is well formed and fits. */
  lemma DecodedFits(bytes: Bytes, size: nat, e: EnvelopeData)
    requires size >= BODY_OFFSET && Decode(bytes, size) == Ok(e)
    ensures Typed(e) && Fits(e, size) && e.window.len > 0 && e.ciphertext.delayClass == e.delayClass
    ensures ULength(bytes) <= U_MAX && e.ciphertext.u == Value(UField(bytes))
    ensures Value(bytes[380..382]) == |e.ciphertext.body|
  {
    ValueBound(bytes[4..12]);
    ValueBound(bytes[12..20]);
    ValueBound(bytes[20..22]);
    ValueBound(bytes[380..382]);
    assert Pow(256, 2) == 0x10000 by {
      assert Pow(256, 2) == 256 * Pow(256, 1) && Pow(256, 1) == 256 * Pow(256, 0);
    }
    var u := UField(bytes);
    hide Value;
    if u != [] {
      MinimalIff(u);
    } else {
      EmptyValue();
    }
  }

  lemma EmptyValue()
    ensures Value([]) == 0
  {}

  /** The pieces decoding reads are the encodings of the fields they give. */
  lemma DecodedPieces(bytes: Bytes, size: nat, e: EnvelopeData)
    requires size >= BODY_OFFSET && Decode(bytes, size) == Ok(e)
    ensures |bytes| == size && BODY_OFFSET + |e.ciphertext.body| <= size
    ensures bytes[0..2] == [0x50, 0x51] && bytes[2] == 1 && bytes[3] == BucketByte(e.bucket)
    ensures bytes[4..12] == ToBytes(e.namespace, 8) && bytes[12..20] == ToBytes(e.window.start, 8)
    ensures bytes[20..22] == ToBytes(e.window.len, 2) && bytes[22] == e.delayClass && bytes[23..39] == e.nonce
    ensures bytes[39..55] == e.ticket.id && bytes[55] == e.ticket.denomination
    ensures bytes[56] == BucketByte(e.ticket.bucket) && bytes[57..122] == e.ticket.issuerSig
    ensures bytes[380..382] == ToBytes(|e.ciphertext.body|, 2)
    ensures bytes[BODY_OFFSET..BODY_OFFSET + |e.ciphertext.body|] == e.ciphertext.body
    ensures forall i | BODY_OFFSET + |e.ciphertext.body| <= i < size :: bytes[i] == 0
  {
    ToBytesOfValue(bytes[4..12]);
    ToBytesOfValue(bytes[12..20]);
    ToBytesOfValue(bytes[20..22]);
    ToBytesOfValue(bytes[380..382]);
    DecodedTail(bytes, size, e);
    hide ToBytes;
    hide Value;
  }

  lemma DecodedTail(bytes: Bytes, size: nat, e: EnvelopeData)
    requires size >= BODY_OFFSET && Decode(bytes, size) == Ok(e)
    ensures |bytes| == size && BODY_OFFSET + |e.ciphertext.body| <= size
    ensures Value(bytes[380..382]) == |e.ciphertext.body|
    ensures bytes[BODY_OFFSET..BODY_OFFSET + |e.ciphertext.body|] == e.ciphertext.body
    ensures forall i | BODY_OFFSET + |e.ciphertext.body| <= i < size :: bytes[i] == 0
  {
    hide Value;
  }

  lemma SamePieces(s: Bytes, t: Bytes, b: nat)
    requires |s| == |t| && BODY_OFFSET + b <= |s|
    requires s[0..2] == t[0..2] && s[2] == t[2] && s[3] == t[3] && s[4..12] == t[4..12] && s[12..20] == t[12..20]
    requires s[20..22] == t[20..22] && s[22] == t[22] && s[23..39] == t[23..39] && s[39..55] == t[39..55]
    requires s[55] == t[55] && s[56] == t[56] && s[57..122] == t[57..122] && s[380..382] == t[380..382]
    requires s[BODY_OFFSET..BODY_OFFSET + b] == t[BODY_OFFSET..BODY_OFFSET + b]
    requires forall i | BODY_OFFSET + b <= i < |s| :: s[i] == 0 && t[i] == 0
    ensures s[..122] == t[..122] && s[380..] == t[380..]
  {
    assert s[..122] == s[0..2] + [s[2], s[3]] + s[4..12] + s[12..20] + s[20..22] + [s[22]] + s[23..39] + s[39..55]
                       + [s[55], s[56]] + s[57..122];
    assert t[..122] == t[0..2] + [t[2], t[3]] + t[4..12] + t[12..20] + t[20..22] + [t[22]] + t[23..39] + t[39..55]
                       + [t[55], t[56]] + t[57..122];
    assert s[380..] == s[380..382] + s[BODY_OFFSET..BODY_OFFSET + b] + s[BODY_OFFSET + b..];
    assert t[380..] == t[380..382] + t[BODY_OFFSET..BODY_OFFSET + b] + t[BODY_OFFSET + b..];
    assert s[BODY_OFFSET + b..] == t[BODY_OFFSET + b..];
  }

  /** Outside the u field, accepted bytes are the encoding of what they decode to. */
  lemma LayoutAroundU(bytes: Bytes, size: nat, e: EnvelopeData)
    requires size >= BODY_OFFSET && Decode(bytes, size) == Ok(e) && Typed(e) && Fits(e, size)
    ensures Layout(e, size)[..122] == bytes[..122] && Layout(e, size)[380..] == bytes[380..]
    ensures Layout(e, size)[122..380] == UBytes(e.ciphertext.u)
  {
    LayoutU(e, size);
    LayoutHeader(e, size);
    LayoutTicket(e, size);
    LayoutBody(e, size);
    hide Layout;
    hide HeaderPrefix;
    hide TicketBytes;
    hide UBytes;
    hide MinimalBytes;
    hide ToBytes;
    hide Value;
    DecodedPieces(bytes, size, e);
    hide Decode;
    SamePieces(Layout(e, size), bytes, |e.ciphertext.body|);
  }

  lemma LayoutU(e: EnvelopeData, size: nat)
    requires Typed(e) && Fits(e, size)
    ensures Layout(e, size)[122..380] == UBytes(e.ciphertext.u)
  {}

  lemma CanonicalField(bytes: Bytes)
    requires |bytes| >= BODY_OFFSET && CanonicalU(bytes)
    ensures ByteLength(Value(UField(bytes))) == ULength(bytes) && bytes[122..380] == UBytes(Value(UField(bytes)))
  {
    var k, f := ULength(bytes), UField(bytes);
    ToBytesOfValue(bytes[122..124]);
    MinimalIff(f);
    ToBytesOfValue(f);
    hide ToBytes;
    hide Value;
    assert bytes[124..380 - k] == Zeros(U_MAX - k);
    assert bytes[122..380] == bytes[122..124] + bytes[124..380 - k] + f;
  }

  lemma FieldIsCanonical(bytes: Bytes, u: nat)
    requires |bytes| >= BODY_OFFSET && ByteLength(u) <= U_MAX && bytes[122..380] == UBytes(u)
    ensures CanonicalU(bytes)
  {
    hide ToBytes;
    hide Value;
    hide MinimalBytes;
    var k, field := ByteLength(u), bytes[122..380];
    TwoByteLengths(k, 0);
    MinimalBytesValue(u);
    MinimalIff(MinimalBytes(u));
    hide ByteLength;
    assert bytes[122..124] == field[..2] == ToBytes(k, 2);
    assert field[2 + (U_MAX - k)..] == MinimalBytes(u) && field[2..2 + (U_MAX - k)] == Zeros(U_MAX - k);
    assert bytes[380 - k] == field[2 + (U_MAX - k)..][0];
    forall i | 124 <= i < 380 - k
      ensures bytes[i] == 0
    {
      assert bytes[i] == field[2..2 + (U_MAX - k)][i - 124];
    }
  }

  /** The u field is the encoding of its value exactly when it is canonical. */
  lemma UFieldIff(bytes: Bytes)
    requires |bytes| >= BODY_OFFSET && ULength(bytes) <= U_MAX && ByteLength(Value(UField(bytes))) <= U_MAX
    ensures bytes[122..380] == UBytes(Value(UField(bytes))) <==> CanonicalU(bytes)
  {
    hide CanonicalU;
    hide UBytes;
    if CanonicalU(bytes) {
      CanonicalField(bytes);
    }
    if bytes[122..380] == UBytes(Value(UField(bytes))) {
      FieldIsCanonical(bytes, Value(UField(bytes)));
    }
  }

  /** Every accepted byte string decodes to an envelope that fits, and is the
      encoding of it exactly when its u field is canonical. */
  lemma AcceptedIsEncodingIff(bytes: Bytes, size: nat, e: EnvelopeData)
    requires size >= BODY_OFFSET && Decode(bytes, size) == Ok(e)
    ensures Typed(e) && Fits(e, size)
    ensures Layout(e, size) == bytes <==> CanonicalU(bytes)
  {
    DecodedFits(bytes, size, e);
    LayoutAroundU(bytes, size, e);
    UFieldIff(bytes);
    hide Decode;
    hide Layout;
    hide UBytes;
    hide CanonicalU;
    hide Value;
    var s := Layout(e, size);
    assert s == s[..122] + s[122..380] + s[380..];
    assert bytes == bytes[..122] + bytes[122..380] + bytes[380..];
  }

  /** Two accepted byte strings decode alike exactly when they agree outside the u
      field and their u fields have one value. */
  lemma DecodeAlikeIff(a: Bytes, b: Bytes, size: nat)
    requires size >= BODY_OFFSET && Decode(a, size).Ok? && Decode(b, size).Ok?
    ensures ULength(a) <= U_MAX && ULength(b) <= U_MAX
    ensures Decode(a, size) == Decode(b, size)
       <==> a[..122] == b[..122] && a[380..] == b[380..] && Value(UField(a)) == Value(UField(b))
  {
    var e, f := Decode(a, size).value, Decode(b, size).value;
    DecodedFits(a, size, e);
    DecodedFits(b, size, f);
    if e == f {
      LayoutAroundU(a, size, e);
      LayoutAroundU(b, size, e);
    }
    if a[..122] == b[..122] && a[380..] == b[380..] && Value(UField(a)) == Value(UField(b)) {
      AgreeDecodes(a, b, size);
    }
  }

  lemma AgreeDecodes(a: Bytes, b: Bytes, size: nat)
    requires size >= BODY_OFFSET && Decode(a, size).Ok? && |b| == size
    requires ULength(a) <= U_MAX && ULength(b) <= U_MAX
    requires a[..122] == b[..122] && a[380..] == b[380..] && Value(UField(a)) == Value(UField(b))
    ensures Decode(a, size) == Decode(b, size)
  {
    hide Value;
    var p, q, r, t := a[..122], b[..122], a[380..], b[380..];
    assert a[4..12] == p[4..12] && a[12..20] == p[12..20] && a[20..22] == p[20..22] && a[23..39] == p[23..39];
    assert a[39..55] == p[39..55] && a[57..122] == p[57..122] && a[22] == p[22] && a[55] == p[55] && a[3] == p[3];
    assert a[56] == p[56];
    assert b[4..12] == q[4..12] && b[12..20] == q[12..20] && b[20..22] == q[20..22] && b[23..39] == q[23..39];
    assert b[39..55] == q[39..55] && b[57..122] == q[57..122] && b[22] == q[22] && b[55] == q[55] && b[3] == q[3];
    assert b[56] == q[56];
    assert a[380..382] == r[..2] && b[380..382] == t[..2];
    var n := Value(a[380..382]);
    BodyOfTail(a, n);
    BodyOfTail(b, n);
    assert a[0..2] == p[0..2] && a[2] == p[2] && b[0..2] == q[0..2] && b[2] == q[2];
    forall i | BODY_OFFSET + n <= i < |b|
      ensures b[i] == 0
    {
      assert b[i] == t[i - 380] == r[i - 380] == a[i];
    }
  }

  /** Decoding, exactly: a byte string decodes to e if and only if e fits, has a window
      and one delay class, and the string has its encoding outside the u field and its
      u in it. Everything else is refused. */
  lemma DecodesIff(bytes: Bytes, size: nat, e: EnvelopeData)
    requires size >= BODY_OFFSET
    ensures Decode(bytes, size) == Ok(e)
       <==> && |bytes| == size && Typed(e) && Fits(e, size)
            && e.window.len > 0 && e.ciphertext.delayClass == e.delayClass
            && bytes[..122] == Layout(e, size)[..122] && bytes[380..] == Layout(e, size)[380..]
            && ULength(bytes) <= U_MAX && Value(UField(bytes)) == e.ciphertext.u
  {
    if Decode(bytes, size) == Ok(e) {
      DecodedFits(bytes, size, e);
      LayoutAroundU(bytes, size, e);
    }
    hide Value;
    hide Decode;
    hide UBytes;
    if |bytes| == size && Typed(e) && Fits(e, size) && e.window.len > 0 && e.ciphertext.delayClass == e.delayClass
       && bytes[..122] == Layout(e, size)[..122] && bytes[380..] == Layout(e, size)[380..]
       && ULength(bytes) <= U_MAX && Value(UField(bytes)) == e.ciphertext.u {
      RoundTripIff(e, size);
      DecodedFits(Layout(e, size), size, e);
      hide Layout;
      AgreeDecodes(Layout(e, size), bytes, size);
    }
  }

  lemma BodyOfTail(s: Bytes, n: nat)
    requires BODY_OFFSET + n <= |s|
    ensures s[BODY_OFFSET..BODY_OFFSET + n] == s[380..][2..2 + n]
  {
    var x, t := s[BODY_OFFSET..BODY_OFFSET + n], s[380..];
    var y := t[2..2 + n];
    forall i | 0 <= i < n
      ensures x[i] == y[i]
    {
      assert x[i] == s[BODY_OFFSET + i] && y[i] == t[2 + i];
    }
    assert x == y;
  }

  /** So decoding is injective on canonical bytes. */
  lemma CanonicalDecodeInjective(a: Bytes, b: Bytes, size: nat)
    requires size >= BODY_OFFSET && Decode(a, size).Ok? && Decode(a, size) == Decode(b, size)
    requires CanonicalU(a) && CanonicalU(b)
    ensures a == b
  {
    AcceptedIsEncodingIff(a, size, Decode(a, size).value);
    AcceptedIsEncodingIff(b, size, Decode(b, size).value);
  }
}
