/** The request decoder of the server (`parse_request` in src/dns/dns.rs):
    a second reading of the twelve header bytes, into its own record. */
module Request {
  import opened Wrappers
  import opened Bytes
  import Header

  /** `DnsRequest`: the header fields under the server's own names. */
  datatype DnsRequest = DnsRequest(
    packetId: U16,
    queryType: Header.PacketType,
    opcode: Byte,
    authAnswer: bool,
    truncation: bool,
    recursionDesired: bool,
    recursionAvailable: bool,
    reserved: Byte,
    responseCode: Byte,
    questionCount: U16,
    answerRecordCount: U16,
    authorityRecordCount: U16,
    additionalRecordCount: U16)

  /** The QR `match`: 0 is a query, 1 a response, anything else an error
      value. */
  function Indicator(x: nat): (r: Result<Header.PacketType>)
    ensures r.Ok? <==> x < 2
    ensures r.Err? ==> r.failure == Returned
    ensures r.Ok? ==> (r.value == Header.Response <==> x == 1)
  {
    if x == 0 then Ok(Header.Query)
    else if x == 1 then Ok(Header.Response)
    else Err(Returned)
  }

  /** A one-bit flag `match`: 0 is false, 1 is true, anything else an
      error value. */
  function Flag(x: nat): (r: Result<bool>)
    ensures r.Ok? <==> x < 2
    ensures r.Err? ==> r.failure == Returned
    ensures r.Ok? ==> (r.value <==> x == 1)
  {
    if x == 0 then Ok(false)
    else if x == 1 then Ok(true)
    else Err(Returned)
  }

  /** The same fields as a header record. */
  function AsHeader(q: DnsRequest): Header.DnsHeader {
    Header.DnsHeader(q.packetId, q.queryType, q.opcode, q.authAnswer, q.truncation,
      q.recursionDesired, q.recursionAvailable, q.reserved, q.responseCode,
      q.questionCount, q.answerRecordCount, q.authorityRecordCount, q.additionalRecordCount)
  }

  /** `parse_request`: the identifier from bytes 0-1, the flags of bytes
      2 and 3 by shifting and masking, then the four counts from bytes
      4-11. Indexing or slicing past a buffer shorter than the header
      panics; each `match` sees only 0 or 1, so none of its error arms is
      ever taken, and the fields written back as a header give exactly the
      twelve bytes read. */
  function ParseRequest(buf: seq<Byte>): (r: Result<DnsRequest>)
    ensures r.Ok? <==> |buf| >= Header.HeaderSize
    ensures r.Err? ==> r.failure == Panicked
    ensures r.Ok? ==> Header.WellFormed(AsHeader(r.value))
    ensures r.Ok? ==> Header.Encode(AsHeader(r.value)) == buf[..Header.HeaderSize]
  {
    if |buf| < 2 then Err(Panicked)
    else
      var packetId := BE16(buf[0..2]);
      if |buf| < 3 then Err(Panicked)
      else
        var queryType := Indicator(buf[2] / 0x80);
        var opcode := (buf[2] / 0x8) % 0x10;
        var authAnswer := Flag((buf[2] / 0x4) % 2);
        var truncation := Flag((buf[2] / 0x2) % 2);
        var recursionDesired := Flag(buf[2] % 2);
        if queryType.Err? || authAnswer.Err? || truncation.Err? || recursionDesired.Err? then Err(Returned)
        else if |buf| < 4 then Err(Panicked)
        else
          var recursionAvailable := Flag((buf[3] / 0x80) % 2);
          var reserved := (buf[3] / 0x10) % 0x8;
          var responseCode := buf[3] % 0x10;
          if recursionAvailable.Err? then Err(Returned)
          else if |buf| < Header.HeaderSize then Err(Panicked)
          else
            var q := DnsRequest(packetId, queryType.value, opcode, authAnswer.value, truncation.value,
              recursionDesired.value, recursionAvailable.value, reserved, responseCode,
              BE16(buf[4..6]), BE16(buf[6..8]), BE16(buf[8..10]), BE16(buf[10..12]));
            Header.DecodedBytes(buf, AsHeader(q));
            Ok(q)
  }

  /** `parse_request` and `DnsHeader::decode` accept the same buffers and
      read the same fields from them, whatever cursor the header decoder is
      given. */
  lemma AgreesWithHeader(buf: seq<Byte>, pos: nat)
    ensures ParseRequest(buf).Ok? <==> Header.Decode(buf, pos).Ok?
    ensures ParseRequest(buf).Ok? ==> AsHeader(ParseRequest(buf).value) == Header.Decode(buf, pos).value.1
  {
    if |buf| >= Header.HeaderSize {
      var h := AsHeader(ParseRequest(buf).value);
      var d := Header.Decode(buf, pos).value.1;
      Header.EncodeInjective(h, d);
    }
  }

  /** The bytes of any header, followed by anything, parse as that header
      with its `u8` fields cut down to their bit fields. */
  lemma ParsesEncoding(h: Header.DnsHeader, rest: seq<Byte>)
    ensures ParseRequest(Header.Encode(h) + rest).Ok?
    ensures AsHeader(ParseRequest(Header.Encode(h) + rest).value) == Header.Masked(h)
  {
    Header.DecodeEncode(h, rest, 0);
    AgreesWithHeader(Header.Encode(h) + rest, 0);
  }

  /** Where the fields sit: the identifier and the counts big-endian in
      bytes 0-1 and 4-11, QR in the top bit of byte 2, OPCODE in the
      four bits below it, AA, TC and RD in its three low bits, RA in the
      top bit of byte 3, Z below it and RCODE in its low four bits. */
  lemma FieldPositions(buf: seq<Byte>)
    requires |buf| >= Header.HeaderSize
    ensures var q := ParseRequest(buf).value;
      && q.packetId == BE16(buf[0..2])
      && (q.queryType == Header.Response <==> buf[2] >= 0x80)
      && buf[2] == (if buf[2] >= 0x80 then 0x80 else 0) + q.opcode * 0x8
           + (if q.authAnswer then 0x4 else 0) + (if q.truncation then 0x2 else 0)
           + (if q.recursionDesired then 1 else 0)
      && buf[3] == (if q.recursionAvailable then 0x80 else 0) + q.reserved * 0x10 + q.responseCode
      && q.questionCount == BE16(buf[4..6]) && q.answerRecordCount == BE16(buf[6..8])
      && q.authorityRecordCount == BE16(buf[8..10]) && q.additionalRecordCount == BE16(buf[10..12])
  {
    var q := ParseRequest(buf).value;
    var e := Header.Encode(AsHeader(q));
    assert e[2] == buf[2] && e[3] == buf[3];
    assert e[0..2] == buf[0..2] && e[4..6] == buf[4..6] && e[6..8] == buf[6..8];
    assert e[8..10] == buf[8..10] && e[10..12] == buf[10..12];
  }

}
