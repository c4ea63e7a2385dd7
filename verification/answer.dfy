/** Resource records and answer sections (src/dns/answer.rs), laid out as
    in section 4.1.3 of RFC 1035: the owner name, TYPE, CLASS, TTL,
    RDLENGTH, then RDLENGTH bytes of RDATA. Names use the uncompressed
    label codec; the position and label map that the Rust signatures carry
    for name compression play no part. */
module Answer {
  import opened Wrappers
  import opened Bytes
  import opened Text
  import opened QuestionTypes
  import opened Parse
  import Label
  import opened Loop

  datatype DnsAnswer = DnsAnswer(
    name: Label.LabelSet,
    qtype: QuestionType,
    qclass: U16,
    ttl: U32,
    data: seq<Byte>)

  /** TYPE, CLASS, TTL and RDLENGTH take this many bytes. */
  const FixedSize: nat := 10

  /** How the encoder fills in RDLENGTH. `TimesFour` is the code as
      written: the data length cut to 16 bits (`as u16`), times four, a
      product that overflows and panics in a debug build. `Exact` is the
      length itself, which is what the decoder reads back; a length that
      does not fit 16 bits is refused. */
  datatype LengthRule = TimesFour | Exact

  /** The RDLENGTH field for `n` bytes of data. */
  function RdLength(n: nat, rule: LengthRule): (r: Result<U16>)
    ensures rule == TimesFour ==> (r.Ok? <==> (n % 0x1_0000) * 4 < 0x1_0000)
    ensures rule == TimesFour ==> (r.Err? ==> r.failure == Panicked)
    ensures rule == TimesFour && n < 0x4000 ==> r == Ok(4 * n)
    ensures rule == Exact ==> (r.Ok? <==> n < 0x1_0000)
    ensures rule == Exact ==> (r.Ok? ==> r.value == n) && (r.Err? ==> r.failure == Returned)
  {
    match rule
    case TimesFour =>
      var cut := n % 0x1_0000;
      if cut * 4 < 0x1_0000 then Ok(cut * 4) else Err(Panicked)
    case Exact =>
      if n < 0x1_0000 then Ok(n) else Err(Returned)
  }

  /** The cast to `u16` loses the high bits before the multiplication:
      64 KiB of data is announced as zero bytes. */
  lemma RdLengthWraps()
    ensures RdLength(0x1_0000, TimesFour) == Ok(0)
    ensures RdLength(0x1_0000, Exact) == Err(Returned)
  {
  }

  /** `DnsAnswer::encode`: the name's encoding, TYPE, CLASS, TTL, RDLENGTH
      and the data. Fails when the name cannot be encoded, and then when
      RDLENGTH cannot be computed. The layout is `EncodeLayout`. */
  function Encode(a: DnsAnswer, rule: LengthRule): (r: Result<seq<Byte>>)
    ensures r.Ok? <==> Label.Encode(a.name).Ok? && RdLength(|a.data|, rule).Ok?
    ensures Label.Encode(a.name).Err? ==> r == Err(Returned)
    ensures Label.Encode(a.name).Ok? && RdLength(|a.data|, rule).Err? ==> r == Err(RdLength(|a.data|, rule).failure)
    ensures r.Ok? ==> |r.value| == |Label.Encode(a.name).value| + FixedSize + |a.data|
  {
    var name :- Label.Encode(a.name);
    var length :- RdLength(|a.data|, rule);
    Ok(name + U16Bytes(ToU16(a.qtype)) + U16Bytes(a.qclass) + U32Bytes(a.ttl) + U16Bytes(length) + a.data)
  }

  /** `Encode` spelled out for given name bytes and RDLENGTH. */
  lemma EncodeOfParts(a: DnsAnswer, rule: LengthRule, name: seq<Byte>, length: U16)
    requires Label.Encode(a.name) == Ok(name)
    requires RdLength(|a.data|, rule) == Ok(length)
    ensures Encode(a, rule)
         == Ok(name + U16Bytes(ToU16(a.qtype)) + U16Bytes(a.qclass) + U32Bytes(a.ttl) + U16Bytes(length) + a.data)
  {
  }

  /** Where each field sits in an encoded answer: the name first, then
      TYPE, CLASS, TTL and RDLENGTH big-endian, then the data. */
  lemma EncodeLayout(a: DnsAnswer, rule: LengthRule)
    requires Encode(a, rule).Ok?
    ensures var b := Encode(a, rule).value; var n := |Label.Encode(a.name).value|;
      && |b| == n + FixedSize + |a.data|
      && b[..n] == Label.Encode(a.name).value
      && BE16(b[n..n + 2]) == ToU16(a.qtype)
      && BE16(b[n + 2..n + 4]) == a.qclass
      && BE32(b[n + 4..n + 8]) == a.ttl
      && BE16(b[n + 8..n + 10]) == RdLength(|a.data|, rule).value
      && b[n + 10..] == a.data
  {
    var name := Label.Encode(a.name).value;
    var length := RdLength(|a.data|, rule).value;
    var t, c, ttl, l := U16Bytes(ToU16(a.qtype)), U16Bytes(a.qclass), U32Bytes(a.ttl), U16Bytes(length);
    var n := |name|;
    var b := name + t + c + ttl + l + a.data;
    EncodeOfParts(a, rule, name, length);
    assert |name + t + c| == n + 4 && |name + t + c + ttl| == n + 8;
    assert b[..n] == name;
    assert b[n..n + 2] == t;
    assert b[n + 2..n + 4] == c;
    assert b[n + 4..n + 8] == ttl;
    assert b[n + 8..n + 10] == l;
    assert b[n + 10..] == a.data;
  }

  /** `DnsAnswer::decode`: the labels from `pos` up to a zero length byte,
      then the fields after them. Returns the position just past the data
      with the answer. */
  function Decode(buf: seq<Byte>, pos: nat): (r: Result<(nat, DnsAnswer)>)
    ensures r.Ok? ==> pos + FixedSize + |r.value.1.data| < r.value.0 <= |buf|
  {
    var read :- Label.ReadLabels(buf, pos);
    DecodeFields(buf, read.0 + 1, Label.LabelSet(read.1))
  }

  /** The rest of `DnsAnswer::decode`, from just past the name: TYPE,
      which must be a known code, CLASS, TTL and RDLENGTH, then exactly
      RDLENGTH bytes of data. */
  function DecodeFields(buf: seq<Byte>, current: nat, name: Label.LabelSet): (r: Result<(nat, DnsAnswer)>)
    ensures r.Ok? ==> r.value.0 == current + FixedSize + |r.value.1.data| <= |buf|
    ensures r.Ok? ==> r.value.1.name == name
  {
    var t :- ParseU16(buf, current);
    var qtype :- FromU16(t.1);
    var c :- ParseU16(buf, t.0);
    var ttl :- ParseU32(buf, c.0);
    var length :- ParseU16(buf, ttl.0);
    var data :- ParseData(buf, length.0, length.1);
    Ok((data.0, DnsAnswer(name, qtype, c.1, ttl.1, data.1)))
  }

  /** What a successful `Decode` read: the labels up to the zero byte, then
      the fields, which end where the cursor ends. */
  lemma DecodeParts(buf: seq<Byte>, pos: nat, end: nat, a: DnsAnswer)
    requires Decode(buf, pos) == Ok((end, a))
    ensures Label.ReadLabels(buf, pos).Ok?
    ensures var read := Label.ReadLabels(buf, pos).value;
      && read.0 + 1 + FixedSize + |a.data| == end
      && read.1 == a.name.labels
      && DecodeFields(buf, read.0 + 1, a.name) == Ok((end, a))
  {
  }

  /** What a successful `DecodeFields` read: the four fixed fields in
      order, RDLENGTH equal to the number of data bytes, and the data. */
  lemma FieldsParts(buf: seq<Byte>, n: nat, name: Label.LabelSet, end: nat, a: DnsAnswer)
    requires DecodeFields(buf, n, name) == Ok((end, a))
    ensures end == n + FixedSize + |a.data| <= |buf|
    ensures BE16(buf[n..n + 2]) == ToU16(a.qtype)
    ensures BE16(buf[n + 2..n + 4]) == a.qclass
    ensures BE32(buf[n + 4..n + 8]) == a.ttl
    ensures BE16(buf[n + 8..n + 10]) == |a.data|
    ensures buf[n + 10..end] == a.data
  {
    FromU16Code(BE16(buf[n..n + 2]));
  }

  /** Re-encoding an answer that was read, with RDLENGTH written as the
      data length, gives back exactly the bytes that were read. */
  lemma DecodeEncodes(buf: seq<Byte>, pos: nat, end: nat, a: DnsAnswer)
    requires Decode(buf, pos) == Ok((end, a))
    ensures Encode(a, Exact) == Ok(buf[pos..end])
  {
    DecodeFacts(buf, pos, end, a);
    PiecesEncode(buf, pos, Label.ReadLabels(buf, pos).value.0, end, a);
  }

  /** What a successful `Decode` read, field by field: the labels up to
      the zero byte, then the fields after it as big-endian numbers, with
      RDLENGTH equal to the number of data bytes. */
  lemma {:induction false} DecodeFacts(buf: seq<Byte>, pos: nat, end: nat, a: DnsAnswer)
    requires Decode(buf, pos) == Ok((end, a))
    ensures Label.ReadLabels(buf, pos).Ok?
    ensures var zero := Label.ReadLabels(buf, pos).value.0; var n := zero + 1;
      && Label.ReadLabels(buf, pos) == Ok((zero, a.name.labels))
      && end == n + FixedSize + |a.data| <= |buf|
      && BE16(buf[n..n + 2]) == ToU16(a.qtype)
      && BE16(buf[n + 2..n + 4]) == a.qclass
      && BE32(buf[n + 4..n + 8]) == a.ttl
      && BE16(buf[n + 8..n + 10]) == |a.data|
      && buf[n + 10..end] == a.data
  {
    DecodeParts(buf, pos, end, a);
    var zero := Label.ReadLabels(buf, pos).value.0;
    FieldsParts(buf, zero + 1, a.name, end, a);
  }

  /** Labels read up to a zero byte, then fields as `DecodeFields` reads
      them, encode back to the same bytes. */
  lemma PiecesEncode(buf: seq<Byte>, pos: nat, zero: nat, end: nat, a: DnsAnswer)
    requires Label.ReadLabels(buf, pos) == Ok((zero, a.name.labels))
    requires var n := zero + 1;
      && end == n + FixedSize + |a.data| <= |buf|
      && BE16(buf[n..n + 2]) == ToU16(a.qtype)
      && BE16(buf[n + 2..n + 4]) == a.qclass
      && BE32(buf[n + 4..n + 8]) == a.ttl
      && BE16(buf[n + 8..n + 10]) == |a.data|
      && buf[n + 10..end] == a.data
    ensures Encode(a, Exact) == Ok(buf[pos..end])
  {
    var n := zero + 1;
    Label.ReadEncodes(buf, pos, zero, a.name.labels);
    assert a.name == Label.LabelSet(a.name.labels);
    U16BytesOfBE16(buf[n..n + 2]);
    U16BytesOfBE16(buf[n + 2..n + 4]);
    U32BytesOfBE32(buf[n + 4..n + 8]);
    U16BytesOfBE16(buf[n + 8..n + 10]);
    EncodeOfParts(a, Exact, buf[pos..n], |a.data|);
    FieldSlices(buf, pos, n, end);
  }

  /** A run of bytes cut at the answer's field boundaries. */
  lemma FieldSlices(buf: seq<Byte>, pos: nat, n: nat, end: nat)
    requires pos <= n && n + FixedSize <= end <= |buf|
    ensures buf[pos..end]
         == buf[pos..n] + buf[n..n + 2] + buf[n + 2..n + 4] + buf[n + 4..n + 8] + buf[n + 8..n + 10] + buf[n + 10..end]
  {
  }

  /** An answer whose name the decoder can produce, encoded with
      RDLENGTH as the data length, is read back from wherever its bytes sit
      in a buffer, and the cursor ends just past them. */
  lemma {:induction false} DecodeAt(a: DnsAnswer, buf: seq<Byte>, pos: nat)
    requires Label.AllWire(a.name.labels) && Encode(a, Exact).Ok?
    requires pos + |Encode(a, Exact).value| <= |buf|
    requires buf[pos..pos + |Encode(a, Exact).value|] == Encode(a, Exact).value
    ensures Decode(buf, pos) == Ok((pos + |Encode(a, Exact).value|, a))
  {
    var name := Label.Encode(a.name).value;
    AnswerBytesHold(a, buf, pos);
    Label.ReadsEncoding(a.name, buf, pos);
    DecodeOfPieces(buf, pos, pos + |name|, a.name, a.qtype, a.qclass, a.ttl, a.data);
  }

  /** The fields of an encoded answer, found where its bytes sit. */
  lemma AnswerBytesHold(a: DnsAnswer, buf: seq<Byte>, pos: nat)
    requires Encode(a, Exact).Ok?
    requires pos + |Encode(a, Exact).value| <= |buf|
    requires buf[pos..pos + |Encode(a, Exact).value|] == Encode(a, Exact).value
    ensures var name := Label.Encode(a.name).value; var n := pos + |name|;
      && |Encode(a, Exact).value| == |name| + FixedSize + |a.data|
      && buf[pos..n] == name
      && BE16(buf[n..n + 2]) == ToU16(a.qtype)
      && BE16(buf[n + 2..n + 4]) == a.qclass
      && BE32(buf[n + 4..n + 8]) == a.ttl
      && BE16(buf[n + 8..n + 10]) == |a.data|
      && buf[n + 10..n + 10 + |a.data|] == a.data
  {
    EncodeLayout(a, Exact);
    FieldsAt(buf, pos, Encode(a, Exact).value, Label.Encode(a.name).value, a.data);
  }

  /** Bytes `b` laid out as a name, ten fixed bytes and the data, found
      at `pos`: each piece sits at its own place in `buf`. */
  lemma FieldsAt(buf: seq<Byte>, pos: nat, b: seq<Byte>, name: seq<Byte>, data: seq<Byte>)
    requires pos + |b| <= |buf| && buf[pos..pos + |b|] == b
    requires |b| == |name| + FixedSize + |data| && b[..|name|] == name && b[|name| + 10..] == data
    ensures var k := |name|; var n := pos + k;
      && buf[pos..n] == name
      && buf[n..n + 2] == b[k..k + 2]
      && buf[n + 2..n + 4] == b[k + 2..k + 4]
      && buf[n + 4..n + 8] == b[k + 4..k + 8]
      && buf[n + 8..n + 10] == b[k + 8..k + 10]
      && buf[n + 10..n + 10 + |data|] == data
  {
    var k := |name|;
    SubSlice(buf, pos, b, 0, k);
    assert b[0..k] == b[..k];
    SubSlice(buf, pos, b, k, k + 2);
    SubSlice(buf, pos, b, k + 2, k + 4);
    SubSlice(buf, pos, b, k + 4, k + 8);
    SubSlice(buf, pos, b, k + 8, k + 10);
    SubSlice(buf, pos, b, k + 10, |b|);
    assert b[k + 10..|b|] == b[k + 10..];
  }

  /** Labels read up to a zero byte just before `next`, then the four
      fixed fields and the data at `next`, decode as the answer of those
      parts. */
  lemma DecodeOfPieces(buf: seq<Byte>, pos: nat, next: nat, ls: Label.LabelSet,
                       t: QuestionType, c: U16, ttl: U32, data: seq<Byte>)
    requires 0 < next && Label.ReadLabels(buf, pos) == Ok((next - 1, ls.labels))
    requires next + FixedSize + |data| <= |buf|
    requires BE16(buf[next..next + 2]) == ToU16(t)
    requires BE16(buf[next + 2..next + 4]) == c
    requires BE32(buf[next + 4..next + 8]) == ttl
    requires BE16(buf[next + 8..next + 10]) == |data|
    requires buf[next + 10..next + 10 + |data|] == data
    ensures Decode(buf, pos) == Ok((next + FixedSize + |data|, DnsAnswer(ls, t, c, ttl, data)))
  {
    FieldsOfParts(buf, next, ls, t, c, ttl, data);
    DecodeOfRead(buf, pos, next, ls);
  }

  /** `Decode` is the label loop followed by the fields after its zero
      byte. */
  lemma DecodeOfRead(buf: seq<Byte>, pos: nat, next: nat, ls: Label.LabelSet)
    requires 0 < next && Label.ReadLabels(buf, pos) == Ok((next - 1, ls.labels))
    ensures Decode(buf, pos) == DecodeFields(buf, next, ls)
  {
    assert Label.LabelSet(ls.labels) == ls;
  }

  /** The four fixed fields and the data at `n` read as the answer of
      those parts. */
  lemma FieldsOfParts(buf: seq<Byte>, n: nat, name: Label.LabelSet,
                      t: QuestionType, c: U16, ttl: U32, data: seq<Byte>)
    requires n + FixedSize + |data| <= |buf|
    requires BE16(buf[n..n + 2]) == ToU16(t)
    requires BE16(buf[n + 2..n + 4]) == c
    requires BE32(buf[n + 4..n + 8]) == ttl
    requires BE16(buf[n + 8..n + 10]) == |data|
    requires buf[n + 10..n + 10 + |data|] == data
    ensures DecodeFields(buf, n, name) == Ok((n + FixedSize + |data|, DnsAnswer(name, t, c, ttl, data)))
  {
    FromU16ToU16(t);
    FieldsRead(buf, n);
  }

  /** The four fixed fields at `n`, as the primitive readers see them. */
  lemma FieldsRead(buf: seq<Byte>, n: nat)
    requires n + FixedSize <= |buf|
    ensures ParseU16(buf, n) == Ok((n + 2, BE16(buf[n..n + 2])))
    ensures ParseU16(buf, n + 2) == Ok((n + 4, BE16(buf[n + 2..n + 4])))
    ensures ParseU32(buf, n + 4) == Ok((n + 8, BE32(buf[n + 4..n + 8])))
    ensures ParseU16(buf, n + 8) == Ok((n + 10, BE16(buf[n + 8..n + 10])))
  {
  }

  /** A known type and the fixed fields present, but fewer bytes left
      than RDLENGTH announces: reading the data panics. */
  lemma FieldsShort(buf: seq<Byte>, n: nat, name: Label.LabelSet)
    requires n + FixedSize <= |buf| && 1 <= BE16(buf[n..n + 2]) <= 16
    requires |buf| < n + FixedSize + BE16(buf[n + 8..n + 10])
    ensures DecodeFields(buf, n, name) == Err(Panicked)
  {
    FieldsRead(buf, n);
  }

  /** RDLENGTH for addresses of four bytes each would be the data length;
      the encoder's extra factor four changes the result for any non-empty
      data, and only for non-empty data, whatever its length. */
  lemma RulesAgreeOnlyWithoutData(a: DnsAnswer)
    requires Label.Encode(a.name).Ok?
    ensures Encode(a, TimesFour) == Encode(a, Exact) <==> |a.data| == 0
  {
    if |a.data| < 0x4000 {
      BothRulesEncode(a);
    }
  }

  /** Below 16384 data bytes both rules encode, and their bytes differ
      exactly when there is data. */
  lemma BothRulesEncode(a: DnsAnswer)
    requires Label.Encode(a.name).Ok? && |a.data| < 0x4000
    ensures Encode(a, TimesFour).Ok? && Encode(a, Exact).Ok?
    ensures Encode(a, TimesFour) == Encode(a, Exact) <==> |a.data| == 0
  {
    EncodeLayout(a, TimesFour);
    EncodeLayout(a, Exact);
  }

  /** An address record: name "a", type A, class 1, TTL 5, four data
      bytes. */
  function Sample(): DnsAnswer {
    DnsAnswer(Label.LabelSet([[0x61]]), A, 1, 5, [1, 2, 3, 4])
  }

  /** Its name is written 01 'a' 00. */
  lemma SampleName()
    ensures Label.AllWire(Sample().name.labels)
    ensures Label.Encode(Sample().name) == Ok([1, 0x61, 0])
  {
    var a: Str := [0x61];
    AsciiIsUtf8(a);
    Label.EncodeEmpty();
    Label.EncodeCons(a, []);
    assert [a] == [a] + [];
    assert Sample().name == Label.LabelSet([a]);
    assert [1] + a + [0] == [1, 0x61, 0];
  }

  /** Its bytes for a given RDLENGTH. */
  lemma SampleBytes(rule: LengthRule, length: U16)
    requires RdLength(4, rule) == Ok(length)
    ensures Encode(Sample(), rule) == Ok([1, 0x61, 0, 0, 1, 0, 1, 0, 0, 0, 5] + U16Bytes(length) + [1, 2, 3, 4])
  {
    SampleName();
    EncodeOfParts(Sample(), rule, [1, 0x61, 0], length);
    assert ToU16(A) == 1;
    assert U16Bytes(1) == [0, 1] && U32Bytes(5) == [0, 0, 0, 5];
    assert [1, 0x61, 0] + [0, 1] + [0, 1] + [0, 0, 0, 5] == [1, 0x61, 0, 0, 1, 0, 1, 0, 0, 0, 5];
  }

  /** Its bytes as written announce 16 data bytes where four follow ... */
  lemma SampleEncodings()
    ensures Label.AllWire(Sample().name.labels)
    ensures Encode(Sample(), TimesFour)
         == Ok([1, 0x61, 0, 0, 1, 0, 1, 0, 0, 0, 5, 0, 16, 1, 2, 3, 4])
    ensures Encode(Sample(), Exact)
         == Ok([1, 0x61, 0, 0, 1, 0, 1, 0, 0, 0, 5, 0, 4, 1, 2, 3, 4])
  {
    SampleName();
    SampleBytes(TimesFour, 16);
    SampleBytes(Exact, 4);
    var head: seq<Byte> := [1, 0x61, 0, 0, 1, 0, 1, 0, 0, 0, 5];
    assert U16Bytes(16) == [0, 16] && U16Bytes(4) == [0, 4];
    assert head + [0, 16] + [1, 2, 3, 4] == [1, 0x61, 0, 0, 1, 0, 1, 0, 0, 0, 5, 0, 16, 1, 2, 3, 4];
    assert head + [0, 4] + [1, 2, 3, 4] == [1, 0x61, 0, 0, 1, 0, 1, 0, 0, 0, 5, 0, 4, 1, 2, 3, 4];
  }

  /** The bytes as written, with RDLENGTH 16. */
  function SampleWire(): seq<Byte> {
    [1, 0x61, 0, 0, 1, 0, 1, 0, 0, 0, 5, 0, 16, 1, 2, 3, 4]
  }

  /** Their name is the one label "a", ended by the zero byte at index 2. */
  lemma SampleWireName()
    ensures Label.ReadLabels(SampleWire(), 0) == Ok((2, Sample().name.labels))
  {
    var w := SampleWire();
    Label.ReadLabelsStop(w, 2);
    assert w[1..2] == [0x61];
    AsciiIsUtf8([0x61]);
    Label.ReadLabelsUnfold(w, 0);
    assert [w[1..2]] + [] == Sample().name.labels;
  }

  /** After the name, RDLENGTH 16 asks for more bytes than follow. */
  lemma SampleWireFields()
    ensures DecodeFields(SampleWire(), 3, Sample().name) == Err(Panicked)
  {
    var w := SampleWire();
    assert w[3..5] == [0, 1] && w[11..13] == [0, 16];
    FieldsShort(w, 3, Sample().name);
  }

  /** ... so decoding them runs past the end of the buffer and panics ... */
  lemma TimesFourBreaksRoundTrip()
    ensures Decode(Encode(Sample(), TimesFour).value, 0) == Err(Panicked)
  {
    SampleEncodings();
    SampleWireName();
    SampleWireFields();
    DecodeOfRead(SampleWire(), 0, 3, Sample().name);
  }

  /** ... while the bytes with the exact length read back as the record. */
  lemma SampleReadsBack()
    ensures Decode(Encode(Sample(), Exact).value, 0) == Ok((17, Sample()))
  {
    SampleEncodings();
    var b := Encode(Sample(), Exact).value;
    assert b[0..|b|] == b;
    DecodeAt(Sample(), b, 0);
  }

  /** A type code outside 1..16 after the name makes `Decode` return an
      error. */
  lemma DecodeRejectsType(buf: seq<Byte>, pos: nat, zero: nat, labels: seq<Str>)
    requires Label.ReadLabels(buf, pos) == Ok((zero, labels))
    requires zero + 3 <= |buf| && !(1 <= BE16(buf[zero + 1..zero + 3]) <= 16)
    ensures Decode(buf, pos) == Err(Returned)
  {
  }

  /** With RDLENGTH written as four times the data length, no answer with
      data reads back: the decoder expects more data bytes than follow the
      fixed fields, and reading them panics. */
  lemma TimesFourNeverRoundTrips(a: DnsAnswer)
    requires Label.AllWire(a.name.labels) && 0 < |a.data| < 0x4000
    ensures Encode(a, TimesFour).Ok?
    ensures Decode(Encode(a, TimesFour).value, 0) == Err(Panicked)
  {
    var b := Encode(a, TimesFour).value;
    EncodeLayout(a, TimesFour);
    var n := |Label.Encode(a.name).value|;
    assert b[0..n] == Label.Encode(a.name).value;
    Label.ReadsEncoding(a.name, b, 0);
    DecodeOfRead(b, 0, n, a.name);
    FromU16ToU16(a.qtype);
    FieldsShort(b, n, a.name);
  }

  /** `DnsAnswerSet::encode` over the list: each answer's bytes in turn,
      stopping at the first answer that cannot be encoded. */
  function EncodeAll(answers: seq<DnsAnswer>, rule: LengthRule): (r: Result<seq<Byte>>)
    ensures r.Ok? <==> forall i :: 0 <= i < |answers| ==> Encode(answers[i], rule).Ok?
  {
    if |answers| == 0 then Ok([])
    else
      var b :- Encode(answers[0], rule);
      var rest :- EncodeAll(answers[1..], rule);
      assert forall i :: 1 <= i < |answers| ==> answers[i] == answers[1..][i - 1];
      Ok(b + rest)
  }

  /** `DnsAnswerSet::encode`: the count given must be the number of
      answers. */
  function EncodeSet(answers: seq<DnsAnswer>, count: nat, rule: LengthRule): (r: Result<seq<Byte>>)
    ensures count != |answers| ==> r == Err(Returned)
    ensures r.Ok? <==> count == |answers| && forall i :: 0 <= i < |answers| ==> Encode(answers[i], rule).Ok?
  {
    if count != |answers| then Err(Returned) else EncodeAll(answers, rule)
  }

  /** The bytes of each answer. */
  function AnswerChunks(answers: seq<DnsAnswer>, rule: LengthRule): (c: seq<seq<Byte>>)
    requires forall i :: 0 <= i < |answers| ==> Encode(answers[i], rule).Ok?
    ensures |c| == |answers|
    ensures forall i :: 0 <= i < |answers| ==> c[i] == Encode(answers[i], rule).value
  {
    seq(|answers|, i requires 0 <= i < |answers| => Encode(answers[i], rule).value)
  }

  /** The answers' bytes follow one another: answer `k` starts after the
      bytes of answers 0 to `k - 1`. */
  lemma {:induction false} EncodeAllConcat(answers: seq<DnsAnswer>, rule: LengthRule)
    requires EncodeAll(answers, rule).Ok?
    ensures EncodeAll(answers, rule).value == Concat(AnswerChunks(answers, rule))
    decreases |answers|
  {
    if |answers| > 0 {
      var tail := answers[1..];
      EncodeAllConcat(tail, rule);
      assert AnswerChunks(answers, rule)[1..] == AnswerChunks(tail, rule);
    }
  }

  /** `DnsAnswerSet::encode` writes each answer's bytes in turn. */
  lemma EncodeSetConcat(answers: seq<DnsAnswer>, rule: LengthRule)
    requires EncodeSet(answers, |answers|, rule).Ok?
    ensures forall i :: 0 <= i < |answers| ==> Encode(answers[i], rule).Ok?
    ensures EncodeSet(answers, |answers|, rule).value == Concat(AnswerChunks(answers, rule))
  {
    EncodeAllConcat(answers, rule);
  }

  /** `DnsAnswer::decode` over a fixed buffer. */
  function AnswerAt(buf: seq<Byte>): Step<DnsAnswer> {
    p => Decode(buf, p)
  }

  /** `DnsAnswerSet::decode`, as a recursion: `count` answers read one
      after another from `pos`. */
  function DecodeAll(buf: seq<Byte>, pos: nat, count: nat): (r: Result<(nat, seq<DnsAnswer>)>)
    ensures count == 0 ==> r == Ok((pos, []))
    ensures r.Ok? ==> |r.value.1| == count
  {
    Many(AnswerAt(buf), pos, count)
  }

  /** `DnsAnswerSet::decode`. */
  method DecodeSet(buf: seq<Byte>, pos: nat, count: nat) returns (r: Result<(nat, seq<DnsAnswer>)>)
    ensures r == DecodeAll(buf, pos, count)
    ensures r.Ok? ==> |r.value.1| == count
    ensures count == 0 ==> r == Ok((pos, []))
  {
    r := ReadMany(AnswerAt(buf), pos, count);
  }

  /** The answer section round trip: answers whose names the decoder can
      produce, encoded with RDLENGTH as the data length and found at `pos`
      in any buffer, are read back in order, and the cursor ends just past
      them. */
  lemma {:induction false} DecodeSetAt(answers: seq<DnsAnswer>, buf: seq<Byte>, pos: nat)
    requires forall i :: 0 <= i < |answers| ==> Label.AllWire(answers[i].name.labels)
    requires EncodeSet(answers, |answers|, Exact).Ok?
    requires var b := EncodeSet(answers, |answers|, Exact).value;
      pos + |b| <= |buf| && buf[pos..pos + |b|] == b
    ensures DecodeAll(buf, pos, |answers|)
         == Ok((pos + |EncodeSet(answers, |answers|, Exact).value|, answers))
  {
    EncodeSetConcat(answers, Exact);
    DecodeChunksAt(answers, buf, pos);
  }

  /** The same, with the bytes given as each answer's encoding in turn. */
  lemma {:induction false} DecodeChunksAt(answers: seq<DnsAnswer>, buf: seq<Byte>, pos: nat)
    requires forall i :: 0 <= i < |answers| ==> Label.AllWire(answers[i].name.labels)
    requires forall i :: 0 <= i < |answers| ==> Encode(answers[i], Exact).Ok?
    requires pos + |Concat(AnswerChunks(answers, Exact))| <= |buf|
    requires buf[pos..pos + |Concat(AnswerChunks(answers, Exact))|] == Concat(AnswerChunks(answers, Exact))
    ensures DecodeAll(buf, pos, |answers|)
         == Ok((pos + |Concat(AnswerChunks(answers, Exact))|, answers))
  {
    AnswersReadAnywhere(answers, buf);
    ReadChunksAt(answers, AnswerChunks(answers, Exact), buf, pos);
  }

  /** Answers read back from anywhere their runs of bytes sit are read
      back from those runs written one after another. */
  lemma ReadChunksAt(answers: seq<DnsAnswer>, chunks: seq<seq<Byte>>, buf: seq<Byte>, pos: nat)
    requires pos + |Concat(chunks)| <= |buf| && buf[pos..pos + |Concat(chunks)|] == Concat(chunks)
    requires ReadsRuns(AnswerAt(buf), buf, chunks, answers)
    ensures DecodeAll(buf, pos, |answers|) == Ok((pos + |Concat(chunks)|, answers))
  {
    ManyReadsRuns(AnswerAt(buf), chunks, answers, buf, pos, |answers|, pos + |Concat(chunks)|);
  }

  /** Each answer is read back from wherever its bytes sit. */
  lemma AnswersReadAnywhere(answers: seq<DnsAnswer>, buf: seq<Byte>)
    requires forall i :: 0 <= i < |answers| ==> Label.AllWire(answers[i].name.labels)
    requires forall i :: 0 <= i < |answers| ==> Encode(answers[i], Exact).Ok?
    ensures ReadsRuns(AnswerAt(buf), buf, AnswerChunks(answers, Exact), answers)
  {
    var chunks := AnswerChunks(answers, Exact);
    forall i, p: nat | 0 <= i < |answers|
      ensures ReadsRun(AnswerAt(buf), buf, p, chunks[i], answers[i])
    {
      if p + |chunks[i]| <= |buf| && buf[p..p + |chunks[i]|] == chunks[i] {
        DecodeAt(answers[i], buf, p);
      }
    }
  }
}
