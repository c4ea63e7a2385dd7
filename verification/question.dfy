/** The question section (src/dns/question.rs): a name, a type and a
    class, section 4.1.2 of RFC 1035. This file carries its own copy of the
    type table with 16-bit signed codes and its own `LabelSet`, whose
    `encode` and `as_domain` are the ones of `Label`; only `from_domain`
    differs. */
module Question {
  import opened Wrappers
  import opened Bytes
  import opened Text
  import opened QuestionTypes
  import opened Label
  import opened Parse
  import opened Loop

  datatype DnsQuestion = DnsQuestion(name: LabelSet, qtype: QuestionType, qclass: I16)

  /** The class `to_bytes` always writes (IN). */
  const ClassIn: I16 := 1

  /** Bytes after the name: type and class. */
  const TypeClassSize: nat := 4

  /** `TryInto<i16> for QuestionType`: the signed copy of the code table.
      Every type is matched, so its catch-all error arm cannot be
      reached. */
  function ToI16(t: QuestionType): (v: I16)
    ensures 1 <= v <= 16
  {
    match t
    case A => 1
    case NS => 2
    case MD => 3
    case MF => 4
    case CNAME => 5
    case SOA => 6
    case MB => 7
    case MG => 8
    case MR => 9
    case NULL => 10
    case WKS => 11
    case PTR => 12
    case HINFO => 13
    case MINFO => 14
    case MX => 15
    case TXT => 16
  }

  /** The signed table and the unsigned one give every type the same
      code. */
  lemma ToI16AgreesWithU16(t: QuestionType)
    ensures ToI16(t) == ToU16(t)
  {
  }

  /** `TryInto<QuestionType> for i16`: codes outside 1..16, negative ones
      included, are rejected. */
  function FromI16(v: I16): (r: Result<QuestionType>)
    ensures r.Ok? <==> 1 <= v <= 16
    ensures r.Err? ==> r.failure == Returned
    ensures r.Ok? ==> ToI16(r.value) == v
  {
    if 1 <= v <= 16 then FromU16Code(v); FromU16(v) else Err(Returned)
  }

  /** Converting a type to its signed code and back gives the type. */
  lemma FromI16ToI16(t: QuestionType)
    ensures FromI16(ToI16(t)) == Ok(t)
  {
    FromU16ToU16(t);
  }

  /** The question-side `LabelSet::from_domain`: split on "." with no
      length check. */
  function NameFromDomain(domain: Str): (ls: LabelSet)
    ensures AsDomain(ls) == domain
    ensures |ls.labels| >= 1
    ensures forall i :: 0 <= i < |ls.labels| ==> Dot !in ls.labels[i]
  {
    LabelSet(Split(domain))
  }

  /** Where the checked `Label.FromDomain` succeeds it agrees with the
      unchecked one; it fails exactly when some label is over 256 bytes. */
  lemma NameFromDomainAgrees(domain: Str)
    ensures Label.FromDomain(domain).Ok? <==> AllWithin(NameFromDomain(domain).labels, MaxDomainLabel)
    ensures Label.FromDomain(domain).Ok? ==> Label.FromDomain(domain).value == NameFromDomain(domain)
  {
  }

  /** `DnsQuestion::to_bytes`: the encoded name, the type as a signed
      16-bit code, then class 1 whatever the question's class is. Fails
      when the name cannot be encoded. The layout is `ToBytesLayout`. */
  function ToBytes(q: DnsQuestion): (r: Result<seq<Byte>>)
    ensures r.Ok? <==> Encode(q.name).Ok?
    ensures r.Err? ==> r.failure == Returned
    ensures r.Ok? ==> |r.value| == |Encode(q.name).value| + TypeClassSize
  {
    var name :- Encode(q.name);
    Ok(name + I16Bytes(ToI16(q.qtype)) + I16Bytes(ClassIn))
  }

  /** Where the parts of a question sit in its bytes: the name's encoding
      first, then the type's code and class 1 as signed 16-bit values. */
  lemma ToBytesLayout(q: DnsQuestion)
    requires Encode(q.name).Ok?
    ensures var b := ToBytes(q).value; var name := Encode(q.name).value; var n := |name|;
      && b[..n] == name
      && AsI16(BE16(b[n..n + 2])) == ToI16(q.qtype)
      && AsI16(BE16(b[n + 2..n + 4])) == ClassIn
  {
    var name := Encode(q.name).value;
    var b := ToBytes(q).value;
    assert b == name + I16Bytes(ToI16(q.qtype)) + I16Bytes(ClassIn);
    assert b[|name|..|name| + 2] == I16Bytes(ToI16(q.qtype));
    assert b[|name| + 2..|name| + 4] == I16Bytes(ClassIn);
  }

  /** The class field never reaches the wire. */
  lemma ToBytesIgnoresClass(q: DnsQuestion, c: I16)
    ensures ToBytes(q.(qclass := c)) == ToBytes(q)
  {
  }

  /** `parse_question`: fail unless the buffer holds a zero byte somewhere
      (anywhere, not necessarily after `start`), then read labels from
      `start` up to a zero length byte, then a signed 16-bit type that must
      be a known code, then a signed 16-bit class. Returns the question and
      the position after the class. */
  function ParseQuestion(buf: seq<Byte>, start: nat): (r: Result<(DnsQuestion, nat)>)
    ensures 0 !in buf ==> r == Err(Returned)
    ensures r.Ok? ==> start + TypeClassSize < r.value.1 <= |buf|
  {
    // the emptiness check that follows in the source cannot fire once a
    // zero byte has been found, so it is not repeated here
    if 0 !in buf then Err(Returned)
    else
      var read :- ReadLabels(buf, start);
      var current := read.0 + 1;
      var typeBytes :- Slice(buf, current, current + 2);
      var qtype :- FromI16(AsI16(BE16(typeBytes)));
      var classBytes :- Slice(buf, current + 2, current + 4);
      Ok((DnsQuestion(LabelSet(read.1), qtype, AsI16(BE16(classBytes))), current + 4))
  }

  /** What a successful `ParseQuestion` read: the labels up to the zero
      byte just before the last four bytes, the type code in the next two
      and the class in the last two. */
  lemma ParseQuestionParts(buf: seq<Byte>, start: nat, q: DnsQuestion, end: nat)
    requires ParseQuestion(buf, start) == Ok((q, end))
    ensures ReadLabels(buf, start) == Ok((end - 5, q.name.labels))
    ensures ToI16(q.qtype) == AsI16(BE16(buf[end - 4..end - 2]))
    ensures q.qclass == AsI16(BE16(buf[end - 2..end]))
  {
  }

  /** What `ParseQuestion` consumes is what `ToBytes` writes for the
      question it returns, except the class, which is read as it stands
      and written as 1. */
  lemma ParseQuestionEncodes(buf: seq<Byte>, start: nat, q: DnsQuestion, end: nat)
    requires ParseQuestion(buf, start) == Ok((q, end))
    ensures ToBytes(q) == Ok(buf[start..end - 2] + I16Bytes(ClassIn))
    ensures AsI16(BE16(buf[end - 2..end])) == q.qclass
  {
    ParseQuestionParts(buf, start, q, end);
    PartsEncode(buf, start, q, end);
  }

  /** The labels, type code and class that `ParseQuestion` reads
      re-encode as the bytes they were read from. */
  lemma PartsEncode(buf: seq<Byte>, start: nat, q: DnsQuestion, end: nat)
    requires end <= |buf| && ReadLabels(buf, start) == Ok((end - 5, q.name.labels))
    requires ToI16(q.qtype) == AsI16(BE16(buf[end - 4..end - 2]))
    ensures ToBytes(q) == Ok(buf[start..end - 2] + I16Bytes(ClassIn))
  {
    ReadEncodes(buf, start, end - 5, q.name.labels);
    assert q.name == LabelSet(q.name.labels);
    BytesOfRead(buf, start, q, end);
  }

  /** The bytes of a name, a type code and a class re-encode as read, with
      class 1 in place of the class. */
  lemma BytesOfRead(buf: seq<Byte>, start: nat, q: DnsQuestion, end: nat)
    requires start + TypeClassSize < end <= |buf|
    requires Encode(q.name) == Ok(buf[start..end - 4])
    requires ToI16(q.qtype) == AsI16(BE16(buf[end - 4..end - 2]))
    ensures ToBytes(q) == Ok(buf[start..end - 2] + I16Bytes(ClassIn))
  {
    var n := end - 4;
    var name := buf[start..n];
    var typeBytes := buf[n..n + 2];
    I16BytesOfBE16(typeBytes);
    ToBytesOfParts(q, name, typeBytes);
    assert buf[start..end - 2] == name + typeBytes;
  }

  /** `ToBytes` is the name's encoding, the type's code and class 1. */
  lemma ToBytesOfParts(q: DnsQuestion, name: seq<Byte>, typeBytes: seq<Byte>)
    requires Encode(q.name) == Ok(name)
    requires typeBytes == I16Bytes(ToI16(q.qtype))
    ensures ToBytes(q) == Ok(name + typeBytes + I16Bytes(ClassIn))
  {
  }

  /** Conversely, a buffer with a zero byte, labels read at `start`, the
      code of a type and a class parses as the question of those parts. */
  lemma ParseQuestionOfParts(buf: seq<Byte>, start: nat, labels: seq<Str>, t: QuestionType, c: I16, end: nat)
    requires 0 in buf
    requires end <= |buf| && ReadLabels(buf, start) == Ok((end - 5, labels))
    requires FromI16(AsI16(BE16(buf[end - 4..end - 2]))) == Ok(t)
    requires AsI16(BE16(buf[end - 2..end])) == c
    ensures ParseQuestion(buf, start) == Ok((DnsQuestion(LabelSet(labels), t, c), end))
  {
  }

  /** A question whose labels the decoder can produce is read back from
      its bytes wherever they sit in a buffer, with class 1. */
  lemma ParseQuestionAt(q: DnsQuestion, buf: seq<Byte>, pos: nat)
    requires AllWire(q.name.labels)
    requires pos + |ToBytes(q).value| <= |buf| && buf[pos..pos + |ToBytes(q).value|] == ToBytes(q).value
    ensures ParseQuestion(buf, pos) == Ok((q.(qclass := ClassIn), pos + |ToBytes(q).value|))
  {
    var name := Encode(q.name).value;
    BytesHoldParts(q, buf, pos, name);
    assert q.name == LabelSet(q.name.labels);
    ParseQuestionOfName(buf, pos, name, q.name.labels, q.qtype, ClassIn);
    assert DnsQuestion(LabelSet(q.name.labels), q.qtype, ClassIn) == q.(qclass := ClassIn);
  }

  /** The bytes of a question are its name's encoding, the code of its
      type and class 1, one after the other. */
  lemma BytesHoldParts(q: DnsQuestion, buf: seq<Byte>, pos: nat, name: seq<Byte>)
    requires Encode(q.name) == Ok(name)
    requires pos + |ToBytes(q).value| <= |buf| && buf[pos..pos + |ToBytes(q).value|] == ToBytes(q).value
    ensures |ToBytes(q).value| == |name| + TypeClassSize
    ensures buf[pos..pos + |name|] == name
    ensures AsI16(BE16(buf[pos + |name|..pos + |name| + 2])) == ToI16(q.qtype)
    ensures AsI16(BE16(buf[pos + |name| + 2..pos + |name| + 4])) == ClassIn
  {
    var typeBytes := I16Bytes(ToI16(q.qtype));
    var classBytes := I16Bytes(ClassIn);
    ToBytesOfParts(q, name, typeBytes);
    assert ToBytes(q).value == name + (typeBytes + classBytes);
    SplitAt(buf, pos, name, typeBytes + classBytes);
    SplitAt(buf, pos + |name|, typeBytes, classBytes);
  }

  /** A name's encoding at `pos` followed by the code of a type and a
      class parses as the question of those parts. */
  lemma ParseQuestionOfName(buf: seq<Byte>, pos: nat, name: seq<Byte>, labels: seq<Str>, t: QuestionType, c: I16)
    requires AllWire(labels) && Encode(LabelSet(labels)) == Ok(name)
    requires pos + |name| + TypeClassSize <= |buf| && buf[pos..pos + |name|] == name
    requires AsI16(BE16(buf[pos + |name|..pos + |name| + 2])) == ToI16(t)
    requires AsI16(BE16(buf[pos + |name| + 2..pos + |name| + 4])) == c
    ensures ParseQuestion(buf, pos) == Ok((DnsQuestion(LabelSet(labels), t, c), pos + |name| + TypeClassSize))
  {
    ReadsEncoding(LabelSet(labels), buf, pos);
    assert buf[pos + |name| - 1] == 0;
    FromI16ToI16(t);
    ParseQuestionOfParts(buf, pos, labels, t, c, pos + |name| + TypeClassSize);
  }

  /** A type code outside 1..16 after the name makes `parse_question`
      return an error. */
  lemma ParseQuestionRejectsType(buf: seq<Byte>, start: nat, zero: nat, labels: seq<Str>)
    requires 0 in buf && ReadLabels(buf, start) == Ok((zero, labels))
    requires zero + 3 <= |buf| && !(1 <= AsI16(BE16(buf[zero + 1..zero + 3])) <= 16)
    ensures ParseQuestion(buf, start) == Err(Returned)
  {
  }

  /** `parse_question` over a fixed buffer, as a reader with the cursor
      first. */
  function QuestionAt(buf: seq<Byte>): Step<DnsQuestion> {
    start => Flip(ParseQuestion(buf, start))
  }

  /** The loop of `parse_questions` as written: after each item the start
      position grows by the *absolute* end position the reader returned, so
      from the third item on the reader looks too far along. The first
      failure ends the loop; the position the loop would read from next
      comes with the items. The loop as evidently intended is `Loop.Many`. */
  function Chain<T>(read: Step<T>, start: nat, n: nat): (r: Result<(nat, seq<T>)>)
    ensures n == 0 ==> r == Ok((start, []))
    ensures r.Ok? ==> |r.value.1| == n
    decreases n
  {
    if n == 0 then Ok((start, []))
    else
      var (end, x) :- read(start);
      var rest :- Chain(read, start + end, n - 1);
      Ok((rest.0, [x] + rest.1))
  }

  /** The counted loop of `parse_questions` as written, for any reader. */
  method ReadChain<T>(read: Step<T>, n: nat) returns (r: Result<(nat, seq<T>)>)
    ensures r == Chain(read, 0, n)
  {
    var start: nat := 0;
    var items: seq<T> := [];
    ThenNil(Chain(read, 0, n));
    for k := 0 to n
      invariant |items| == k
      invariant Chain(read, 0, n) == Then(items, Chain(read, start, n - k))
    {
      var p := read(start);
      if p.Err? {
        return Err(p.failure);
      }
      var (end, x) := p.value;
      ThenThen(items, [x], Chain(read, start + end, n - k - 1));
      start := start + end;
      items := items + [x];
    }
    assert items + [] == items;
    return Ok((start, items));
  }

  /** `parse_questions` as written. */
  method ParseQuestions(buf: seq<Byte>, n: nat) returns (r: Result<seq<DnsQuestion>>)
    ensures r == Items(Chain(QuestionAt(buf), 0, n))
    ensures r.Ok? ==> |r.value| == n
  {
    var m := ReadChain(QuestionAt(buf), n);
    r := Items(m);
  }

  /** `parse_questions` with each question started where the last ended. */
  method ParseQuestionsFixed(buf: seq<Byte>, n: nat) returns (r: Result<seq<DnsQuestion>>)
    ensures r == Items(Many(QuestionAt(buf), 0, n))
    ensures r.Ok? ==> |r.value| == n
  {
    var m := ReadMany(QuestionAt(buf), 0, n);
    r := Items(m);
  }

  /** For up to two items the as-written loop and the intended one read
      the same items: the first item starts at 0, so "start + end" is still
      "end". */
  lemma ChainRunAgree<T>(read: Step<T>, n: nat)
    requires n <= 2
    ensures Items(Chain(read, 0, n)) == Items(Many(read, 0, n))
  {
    if n > 0 && read(0).Ok? {
      var end := read(0).value.0;
      assert 0 + end == end;
      if n == 2 && read(end).Ok? {
        var end2 := read(end).value.0;
        assert Chain(read, end + end2, 0).value.1 == Many(read, end2, 0).value.1;
      }
    }
  }

  /** Every question's labels are ones the decoder can produce. */
  predicate AllReadable(qs: seq<DnsQuestion>) {
    forall i :: 0 <= i < |qs| ==> AllWire(qs[i].name.labels)
  }

  /** The bytes `to_bytes` writes for each of `qs`. */
  function Chunks(qs: seq<DnsQuestion>): (c: seq<seq<Byte>>)
    requires AllReadable(qs)
    ensures |c| == |qs|
    ensures forall i :: 0 <= i < |qs| ==> ToBytes(qs[i]).Ok? && c[i] == ToBytes(qs[i]).value
  {
    if |qs| == 0 then []
    else
      assert AllReadable(qs[1..]) by {
        assert forall j :: 0 <= j < |qs| - 1 ==> qs[1..][j] == qs[j + 1];
      }
      [ToBytes(qs[0]).value] + Chunks(qs[1..])
  }

  /** The questions as they read back: class 1 throughout. */
  function WithClassIn(qs: seq<DnsQuestion>): (r: seq<DnsQuestion>)
    ensures |r| == |qs|
    ensures forall i :: 0 <= i < |qs| ==> r[i] == qs[i].(qclass := ClassIn)
  {
    seq(|qs|, i requires 0 <= i < |qs| => qs[i].(qclass := ClassIn))
  }

  /** The intended loop reads back every question written one after
      another, wherever the run of questions sits in the buffer, each with
      class 1, and ends just past them. */
  lemma {:induction false} RunQuestionsAt(qs: seq<DnsQuestion>, buf: seq<Byte>, pos: nat)
    requires AllReadable(qs)
    requires pos + |Concat(Chunks(qs))| <= |buf| && buf[pos..pos + |Concat(Chunks(qs))|] == Concat(Chunks(qs))
    ensures Many(QuestionAt(buf), pos, |qs|) == Ok((pos + |Concat(Chunks(qs))|, WithClassIn(qs)))
  {
    QuestionsReadAnywhere(qs, buf);
    ReadQuestionChunks(Chunks(qs), WithClassIn(qs), buf, pos, |qs|);
  }

  /** Questions read back from anywhere their bytes sit are read back
      from those bytes written one after another. */
  lemma ReadQuestionChunks(chunks: seq<seq<Byte>>, xs: seq<DnsQuestion>, buf: seq<Byte>, pos: nat, n: nat)
    requires pos + |Concat(chunks)| <= |buf| && buf[pos..pos + |Concat(chunks)|] == Concat(chunks)
    requires ReadsRuns(QuestionAt(buf), buf, chunks, xs) && |xs| == n
    ensures Many(QuestionAt(buf), pos, n) == Ok((pos + |Concat(chunks)|, xs))
  {
    ManyReadsRuns(QuestionAt(buf), chunks, xs, buf, pos, n, pos + |Concat(chunks)|);
  }

  /** Each question is read back, with class 1, from wherever its bytes
      sit. */
  lemma QuestionsReadAnywhere(qs: seq<DnsQuestion>, buf: seq<Byte>)
    requires AllReadable(qs)
    ensures ReadsRuns(QuestionAt(buf), buf, Chunks(qs), WithClassIn(qs))
  {
    var chunks := Chunks(qs);
    forall i, p: nat | 0 <= i < |qs|
      ensures ReadsRun(QuestionAt(buf), buf, p, chunks[i], WithClassIn(qs)[i])
    {
      QuestionReadsRun(qs[i], buf, p);
    }
  }

  /** A question is read back, with class 1, from wherever its bytes sit. */
  lemma QuestionReadsRun(q: DnsQuestion, buf: seq<Byte>, p: nat)
    requires AllWire(q.name.labels)
    ensures ReadsRun(QuestionAt(buf), buf, p, ToBytes(q).value, q.(qclass := ClassIn))
  {
    var b := ToBytes(q).value;
    if p + |b| <= |buf| && buf[p..p + |b|] == b {
      ParseQuestionAt(q, buf, p);
    }
  }

  /** One item read by the as-written loop. */
  lemma ChainOne<T>(read: Step<T>)
    requires read(0).Ok?
    ensures Items(Chain(read, 0, 1)) == Ok([read(0).value.1])
  {
    var x := read(0).value.1;
    assert Chain(read, 0 + read(0).value.0, 0).Ok?;
    assert [x] + [] == [x];
  }

  /** The as-written loop fails on the third item when the reader fails at
      the sum of the first two end positions. */
  lemma ChainThirdFails<T>(read: Step<T>, end1: nat, end2: nat)
    requires read(0).Ok? && read(0).value.0 == end1
    requires read(end1).Ok? && read(end1).value.0 == end2
    requires read(end1 + end2).Err?
    ensures Chain(read, 0, 3) == Err(read(end1 + end2).failure)
  {
    assert Chain(read, end1 + end2, 1) == Err(read(end1 + end2).failure);
    assert Chain(read, end1, 2) == Err(read(end1 + end2).failure);
    assert 0 + end1 == end1;
  }

  /** The question "a", type A, class IN. */
  function QuestionA(): DnsQuestion {
    DnsQuestion(LabelSet([[0x61]]), A, ClassIn)
  }

  /** "a", type A, class IN is written 01 'a' 00, 00 01, 00 01. */
  lemma QuestionABytes()
    ensures AllWire(QuestionA().name.labels)
    ensures ToBytes(QuestionA()) == Ok([1, 0x61, 0, 0, 1, 0, 1])
  {
    var a: Str := [0x61];
    AsciiIsUtf8(a);
    EncodeEmpty();
    EncodeCons(a, []);
    assert [a] == [a] + [];
    assert QuestionA().name == LabelSet([a]);
    assert Encode(LabelSet([a])) == Ok([1] + a + [0]);
    assert [1] + a + [0] == [1, 0x61, 0];
    assert ToI16(A) == 1;
    assert I16Bytes(1) == [0, 1];
    assert [1, 0x61, 0] + [0, 1] + [0, 1] == [1, 0x61, 0, 0, 1, 0, 1];
  }

  /** Three copies of that question in a row take 21 bytes. */
  lemma ThreeQuestionsBytes()
    ensures AllReadable([QuestionA(), QuestionA(), QuestionA()])
    ensures var e := ToBytes(QuestionA()).value;
      Concat(Chunks([QuestionA(), QuestionA(), QuestionA()])) == e + e + e
  {
    var q := QuestionA();
    QuestionABytes();
    var e := ToBytes(q).value;
    assert Concat(Chunks([q])) == e + Concat(Chunks([]));
    assert Concat(Chunks([q, q])) == e + Concat(Chunks([q]));
    assert Concat(Chunks([q, q, q])) == e + Concat(Chunks([q, q]));
  }

  /** The 21 bytes of three copies of "a", type A, class IN. */
  function ThreeA(): seq<Byte> {
    [1, 0x61, 0, 0, 1, 0, 1, 1, 0x61, 0, 0, 1, 0, 1, 1, 0x61, 0, 0, 1, 0, 1]
  }

  /** Those bytes are the questions written one after another. */
  lemma ThreeAIsWritten()
    ensures AllReadable([QuestionA(), QuestionA(), QuestionA()])
    ensures ThreeA() == Concat(Chunks([QuestionA(), QuestionA(), QuestionA()]))
    ensures var e := ToBytes(QuestionA()).value; ThreeA() == e + e + e && |e| == 7
  {
    QuestionABytes();
    ThreeQuestionsBytes();
    ThreeACopies();
  }

  /** `ThreeA` is three copies of one 7-byte question. */
  lemma ThreeACopies()
    ensures var e: seq<Byte> := [1, 0x61, 0, 0, 1, 0, 1]; ThreeA() == e + e + e
  {
  }

  /** The intended loop reads all three questions of `ThreeA` and ends at
      its last byte. */
  lemma RunReadsThreeA()
    ensures Many(QuestionAt(ThreeA()), 0, 3) == Ok((21, [QuestionA(), QuestionA(), QuestionA()]))
  {
    var q := QuestionA();
    var qs := [q, q, q];
    ThreeAIsWritten();
    assert ThreeA()[0..21] == ThreeA();
    RunQuestionsAt(qs, ThreeA(), 0);
    assert WithClassIn(qs) == qs;
  }

  /** The as-written loop reads the first two questions of `ThreeA`, then
      looks for the third at offset 7 + 14 = 21 of the 21-byte buffer and
      panics there. */
  lemma ChainMissesThreeA()
    ensures Items(Chain(QuestionAt(ThreeA()), 0, 3)) == Err(Panicked)
  {
    var q := QuestionA();
    var buf := ThreeA();
    QuestionABytes();
    ThreeASlices();
    ParseQuestionAt(q, buf, 0);
    ParseQuestionAt(q, buf, 7);
    assert q.(qclass := ClassIn) == q;
    var read := QuestionAt(buf);
    assert read(0) == Ok((7, q));
    assert read(7) == Ok((14, q));
    assert read(21) == Err(Panicked) by {
      assert ReadLabels(buf, 21) == Err(Panicked);
    }
    ChainThirdFails(read, 7, 14);
  }

  /** Where the copies sit in `ThreeA`, and a zero byte in it. */
  lemma ThreeASlices()
    ensures |ThreeA()| == 21 && ThreeA()[2] == 0 && 0 in ThreeA()
    ensures ThreeA()[0..7] == [1, 0x61, 0, 0, 1, 0, 1]
    ensures ThreeA()[7..14] == [1, 0x61, 0, 0, 1, 0, 1]
  {
  }

  /** The unit test's buffer: the question google.com, type A, class IN,
      read by `parse_questions` with a count of one. */
  lemma GoogleComQuestion()
    ensures var google: Str := [0x67, 0x6f, 0x6f, 0x67, 0x6c, 0x65];
      var com: Str := [0x63, 0x6f, 0x6d];
      var buf := [0x06, 0x67, 0x6f, 0x6f, 0x67, 0x6c, 0x65, 0x03, 0x63, 0x6f, 0x6d, 0x00,
                  0x00, 0x01, 0x00, 0x01];
      && Items(Chain(QuestionAt(buf), 0, 1)) == Ok([DnsQuestion(LabelSet([google, com]), A, ClassIn)])
      && AsDomain(LabelSet([google, com])) == [0x67, 0x6f, 0x6f, 0x67, 0x6c, 0x65, 0x2e, 0x63, 0x6f, 0x6d]
  {
    var google: Str := [0x67, 0x6f, 0x6f, 0x67, 0x6c, 0x65];
    var com: Str := [0x63, 0x6f, 0x6d];
    var q := DnsQuestion(LabelSet([google, com]), A, ClassIn);
    AsciiIsUtf8(google);
    AsciiIsUtf8(com);
    assert AllWire(q.name.labels);
    GoogleComEncoding();
    var buf := [0x06, 0x67, 0x6f, 0x6f, 0x67, 0x6c, 0x65, 0x03, 0x63, 0x6f, 0x6d, 0x00,
                0x00, 0x01, 0x00, 0x01];
    assert ToBytes(q).value == buf;
    assert buf[0..|buf|] == buf;
    ParseQuestionAt(q, buf, 0);
    ChainOne(QuestionAt(buf));
    GoogleComLabels();
  }
}
