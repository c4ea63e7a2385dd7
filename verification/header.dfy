/** The fixed twelve-byte message header (src/dns/header.rs), laid out as
    in section 4.1.1 of RFC 1035. */
module Header {
  import opened Wrappers
  import opened Bytes

  /** The QR bit. */
  datatype PacketType = Query | Response

  datatype DnsHeader = DnsHeader(
    packetId: U16,
    queryType: PacketType,
    opcode: Byte,
    authAnswer: bool,
    truncation: bool,
    recursionDesired: bool,
    recursionAvailable: bool,
    reserved: Byte,
    responseCode: Byte,
    questionCount: U16,
    answerCount: U16,
    authorityCount: U16,
    additionalCount: U16)

  /** The header occupies this many bytes on the wire. */
  const HeaderSize: nat := 12

  /** The `u8` fields fit their bit fields: OPCODE and RCODE have four
      bits, Z has three. */
  predicate WellFormed(h: DnsHeader) {
    h.opcode < 0x10 && h.reserved < 0x8 && h.responseCode < 0x10
  }

  /** The header with each `u8` field cut down to its bit field, as the
      encoder's masks do. */
  function Masked(h: DnsHeader): (m: DnsHeader)
    ensures WellFormed(m)
    ensures WellFormed(h) ==> m == h
  {
    h.(opcode := h.opcode % 0x10, reserved := h.reserved % 0x8, responseCode := h.responseCode % 0x10)
  }

  function Bit(b: bool): nat {
    if b then 1 else 0
  }

  /** Byte 2: QR, OPCODE, AA, TC, RD from the high bit down. */
  function FlagsByte(h: DnsHeader): (b: Byte)
    ensures b / 0x80 == (if h.queryType == Response then 1 else 0)
    ensures (b / 0x8) % 0x10 == h.opcode % 0x10
    ensures (b / 0x4) % 2 == Bit(h.authAnswer)
    ensures (b / 0x2) % 2 == Bit(h.truncation)
    ensures b % 2 == Bit(h.recursionDesired)
  {
    var qr := if h.queryType == Response then 1 else 0;
    FlagsOfFields(qr, h.opcode % 0x10, Bit(h.authAnswer), Bit(h.truncation), Bit(h.recursionDesired));
    qr * 0x80
    + (h.opcode % 0x10) * 0x8
    + Bit(h.authAnswer) * 0x4
    + Bit(h.truncation) * 0x2
    + Bit(h.recursionDesired)
  }

  /** Byte 3: RA, Z, RCODE from the high bit down. */
  function CodesByte(h: DnsHeader): (b: Byte)
    ensures b / 0x80 == Bit(h.recursionAvailable)
    ensures (b / 0x10) % 0x8 == h.reserved % 0x8
    ensures b % 0x10 == h.responseCode % 0x10
  {
    CodesOfFields(Bit(h.recursionAvailable), h.reserved % 0x8, h.responseCode % 0x10);
    Bit(h.recursionAvailable) * 0x80
    + (h.reserved % 0x8) * 0x10
    + h.responseCode % 0x10
  }

  /** Fields packed into byte 2 are read back by shifting and masking. */
  lemma FlagsOfFields(qr: nat, op: nat, aa: nat, tc: nat, rd: nat)
    requires qr < 2 && op < 0x10 && aa < 2 && tc < 2 && rd < 2
    ensures var b := qr * 0x80 + op * 0x8 + aa * 0x4 + tc * 0x2 + rd;
      b / 0x80 == qr && (b / 0x8) % 0x10 == op && (b / 0x4) % 2 == aa
      && (b / 0x2) % 2 == tc && b % 2 == rd
  {
    var b := qr * 0x80 + op * 0x8 + aa * 0x4 + tc * 0x2 + rd;
    var b1 := qr * 0x40 + op * 0x4 + aa * 0x2 + tc;
    var b2 := qr * 0x20 + op * 0x2 + aa;
    var b3 := qr * 0x10 + op;
    assert b == b1 * 2 + rd;
    assert b / 2 == b1;
    assert b1 / 2 == b2 && b1 % 2 == tc;
    assert b / 0x4 == b2;
    assert b2 / 2 == b3 && b2 % 2 == aa;
    assert b / 0x8 == b3;
    assert b3 / 0x10 == qr && b3 % 0x10 == op;
  }

  /** Fields packed into byte 3 are read back by shifting and masking. */
  lemma CodesOfFields(ra: nat, z: nat, rcode: nat)
    requires ra < 2 && z < 0x8 && rcode < 0x10
    ensures var b := ra * 0x80 + z * 0x10 + rcode;
      b / 0x80 == ra && (b / 0x10) % 0x8 == z && b % 0x10 == rcode
  {
    var b := ra * 0x80 + z * 0x10 + rcode;
    var b4 := ra * 0x8 + z;
    assert b == b4 * 0x10 + rcode;
    assert b / 0x10 == b4 && b % 0x10 == rcode;
    assert b4 / 0x8 == ra && b4 % 0x8 == z;
  }

  /** `DnsHeader::encode`: the ID, the two flag bytes and the four counts,
      each in its place. */
  function Encode(h: DnsHeader): (b: seq<Byte>)
    ensures |b| == HeaderSize
    ensures BE16(b[0..2]) == h.packetId
    ensures b[2] == FlagsByte(h) && b[3] == CodesByte(h)
    ensures BE16(b[4..6]) == h.questionCount
    ensures BE16(b[6..8]) == h.answerCount
    ensures BE16(b[8..10]) == h.authorityCount
    ensures BE16(b[10..12]) == h.additionalCount
  {
    var b := U16Bytes(h.packetId) + [FlagsByte(h), CodesByte(h)]
      + U16Bytes(h.questionCount) + U16Bytes(h.answerCount)
      + U16Bytes(h.authorityCount) + U16Bytes(h.additionalCount);
    assert b[0..2] == U16Bytes(h.packetId);
    assert b[4..6] == U16Bytes(h.questionCount);
    assert b[6..8] == U16Bytes(h.answerCount);
    assert b[8..10] == U16Bytes(h.authorityCount);
    assert b[10..12] == U16Bytes(h.additionalCount);
    b
  }

  /** The QR bit read by `decode`; a shifted-down top bit is 0 or 1, so the
      error arm of its `match` cannot be reached. */
  function PacketTypeOf(bit: nat): PacketType
    requires bit < 2
  {
    if bit == 0 then Query else Response
  }

  /** A one-bit flag read by `decode`; as above, only 0 and 1 occur. */
  function FlagOf(bit: nat): bool
    requires bit < 2
  {
    bit == 1
  }

  /** Any byte is the sum of the byte-2 fields read from it. */
  lemma FlagsByteFields(b: Byte)
    ensures b == (b / 0x80) * 0x80 + ((b / 0x8) % 0x10) * 0x8
      + ((b / 0x4) % 2) * 0x4 + ((b / 0x2) % 2) * 0x2 + b % 2
  {
    var b1 := b / 2;
    var b2 := b1 / 2;
    var b3 := b2 / 2;
    assert b2 == b / 0x4;
    assert b3 == b / 0x8;
    assert b3 / 0x10 == b / 0x80;
  }

  /** Any byte is the sum of the byte-3 fields read from it. */
  lemma CodesByteFields(b: Byte)
    ensures b == (b / 0x80) * 0x80 + ((b / 0x10) % 0x8) * 0x10 + b % 0x10
  {
    assert b / 0x10 / 0x8 == b / 0x80;
  }

  /** Fields read from byte 2 put it back together. */
  lemma FlagsByteRead(h: DnsHeader, b: Byte)
    requires h.queryType == PacketTypeOf(b / 0x80)
    requires h.opcode == (b / 0x8) % 0x10
    requires h.authAnswer == FlagOf((b / 0x4) % 2)
    requires h.truncation == FlagOf((b / 0x2) % 2)
    requires h.recursionDesired == FlagOf(b % 2)
    ensures FlagsByte(h) == b
  {
    FlagsByteFields(b);
    assert (if h.queryType == Response then 1 else 0) == b / 0x80;
    assert Bit(h.authAnswer) == (b / 0x4) % 2;
    assert Bit(h.truncation) == (b / 0x2) % 2;
    assert Bit(h.recursionDesired) == b % 2;
  }

  /** Fields read from byte 3 put it back together. */
  lemma CodesByteRead(h: DnsHeader, b: Byte)
    requires h.recursionAvailable == FlagOf((b / 0x80) % 2)
    requires h.reserved == (b / 0x10) % 0x8
    requires h.responseCode == b % 0x10
    ensures CodesByte(h) == b
  {
    CodesByteFields(b);
    assert Bit(h.recursionAvailable) == b / 0x80;
  }

  /** `DnsHeader::decode`: the fields are always read from bytes 0 to 11
      of `buf`, whatever `pos` is, and the cursor moves to `pos + 12`.
      A buffer shorter than that makes an index or slice panic. */
  function Decode(buf: seq<Byte>, pos: nat): (r: Result<(nat, DnsHeader)>)
    ensures r.Ok? <==> |buf| >= HeaderSize
    ensures r.Err? ==> r.failure == Panicked
    ensures r.Ok? ==> r.value.0 == pos + HeaderSize
    ensures r.Ok? ==> WellFormed(r.value.1)
    ensures r.Ok? ==> Encode(r.value.1) == buf[..HeaderSize]
  {
    if |buf| < HeaderSize then Err(Panicked)
    else
      var h := DnsHeader(
        BE16(buf[0..2]),
        PacketTypeOf(buf[2] / 0x80),
        (buf[2] / 0x8) % 0x10,
        FlagOf((buf[2] / 0x4) % 2),
        FlagOf((buf[2] / 0x2) % 2),
        FlagOf(buf[2] % 2),
        FlagOf((buf[3] / 0x80) % 2),
        (buf[3] / 0x10) % 0x8,
        buf[3] % 0x10,
        BE16(buf[4..6]),
        BE16(buf[6..8]),
        BE16(buf[8..10]),
        BE16(buf[10..12]));
      DecodedBytes(buf, h);
      Ok((pos + HeaderSize, h))
  }

  /** The header `Decode` builds encodes back to the bytes it read. */
  lemma DecodedBytes(buf: seq<Byte>, h: DnsHeader)
    requires |buf| >= HeaderSize
    requires h.packetId == BE16(buf[0..2])
    requires h.queryType == PacketTypeOf(buf[2] / 0x80)
    requires h.opcode == (buf[2] / 0x8) % 0x10
    requires h.authAnswer == FlagOf((buf[2] / 0x4) % 2)
    requires h.truncation == FlagOf((buf[2] / 0x2) % 2)
    requires h.recursionDesired == FlagOf(buf[2] % 2)
    requires h.recursionAvailable == FlagOf((buf[3] / 0x80) % 2)
    requires h.reserved == (buf[3] / 0x10) % 0x8
    requires h.responseCode == buf[3] % 0x10
    requires h.questionCount == BE16(buf[4..6])
    requires h.answerCount == BE16(buf[6..8])
    requires h.authorityCount == BE16(buf[8..10])
    requires h.additionalCount == BE16(buf[10..12])
    ensures Encode(h) == buf[..HeaderSize]
  {
    FlagsByteRead(h, buf[2]);
    CodesByteRead(h, buf[3]);
    U16BytesOfBE16(buf[0..2]);
    U16BytesOfBE16(buf[4..6]);
    U16BytesOfBE16(buf[6..8]);
    U16BytesOfBE16(buf[8..10]);
    U16BytesOfBE16(buf[10..12]);
    assert buf[..HeaderSize] == buf[0..2] + [buf[2], buf[3]] + buf[4..6] + buf[6..8] + buf[8..10] + buf[10..12];
  }

  /** Encoding then decoding gives back the header with its `u8` fields
      masked, whatever follows the header and whatever `pos` is; a
      well-formed header comes back unchanged. */
  lemma DecodeEncode(h: DnsHeader, rest: seq<Byte>, pos: nat)
    ensures Decode(Encode(h) + rest, pos) == Ok((pos + HeaderSize, Masked(h)))
    ensures WellFormed(h) ==> Decode(Encode(h) + rest, pos) == Ok((pos + HeaderSize, h))
  {
    var b := Encode(h) + rest;
    var d := Decode(b, pos).value.1;
    assert b[..HeaderSize] == Encode(h);
    EncodeMasked(h);
    EncodeInjective(d, Masked(h));
  }

  /** Headers whose encodings agree agree on every field up to masking. */
  lemma EncodeInjective(g: DnsHeader, h: DnsHeader)
    requires Encode(g) == Encode(h)
    requires WellFormed(g) && WellFormed(h)
    ensures g == h
  {
    var e := Encode(g);
    FlagsByteInjective(g, h);
    CodesByteInjective(g, h);
    assert g.packetId == BE16(e[0..2]) == h.packetId;
    assert g.questionCount == BE16(e[4..6]) == h.questionCount;
    assert g.answerCount == BE16(e[6..8]) == h.answerCount;
    assert g.authorityCount == BE16(e[8..10]) == h.authorityCount;
    assert g.additionalCount == BE16(e[10..12]) == h.additionalCount;
  }

  /** Byte 2 determines QR, OPCODE, AA, TC and RD. */
  lemma FlagsByteInjective(g: DnsHeader, h: DnsHeader)
    requires FlagsByte(g) == FlagsByte(h)
    requires g.opcode < 0x10 && h.opcode < 0x10
    ensures g.queryType == h.queryType && g.opcode == h.opcode
    ensures g.authAnswer == h.authAnswer && g.truncation == h.truncation
    ensures g.recursionDesired == h.recursionDesired
  {
    assert Bit(g.authAnswer) == Bit(h.authAnswer) && Bit(g.truncation) == Bit(h.truncation);
    assert Bit(g.recursionDesired) == Bit(h.recursionDesired);
  }

  /** Byte 3 determines RA, Z and RCODE. */
  lemma CodesByteInjective(g: DnsHeader, h: DnsHeader)
    requires CodesByte(g) == CodesByte(h)
    requires g.reserved < 0x8 && h.reserved < 0x8 && g.responseCode < 0x10 && h.responseCode < 0x10
    ensures g.recursionAvailable == h.recursionAvailable
    ensures g.reserved == h.reserved && g.responseCode == h.responseCode
  {
    assert Bit(g.recursionAvailable) == Bit(h.recursionAvailable);
  }

  /** Masking does not change the encoding. */
  lemma EncodeMasked(h: DnsHeader)
    ensures Encode(Masked(h)) == Encode(h)
  {
    var m := Masked(h);
    assert m.opcode % 0x10 == h.opcode % 0x10;
    assert m.reserved % 0x8 == h.reserved % 0x8;
    assert m.responseCode % 0x10 == h.responseCode % 0x10;
    assert FlagsByte(m) == FlagsByte(h);
    assert CodesByte(m) == CodesByte(h);
  }
}
