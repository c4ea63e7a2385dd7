/** Uncompressed domain names (src/dns/label.rs): a name is a sequence of
    labels; on the wire each label is a length byte followed by its bytes,
    and a zero byte ends the name (section 3.1 of RFC 1035). */
module Label {
  import opened Wrappers
  import opened Bytes
  import opened Text

  datatype LabelSet = LabelSet(labels: seq<Str>)

  /** The longest label `from_domain` accepts. */
  const MaxDomainLabel: nat := 256

  /** The longest label a one-byte length prefix can describe. */
  const MaxWireLabel: nat := 0xFF

  /** `LabelSet::from_domain`: split on "." and reject labels longer than
      256 bytes. */
  function FromDomain(domain: Str): (r: Result<LabelSet>)
    ensures r.Ok? <==> AllWithin(Split(domain), MaxDomainLabel)
    ensures r.Err? ==> r.failure == Returned
    ensures r.Ok? ==> AsDomain(r.value) == domain
    ensures r.Ok? ==> |r.value.labels| >= 1
    ensures r.Ok? ==> forall i :: 0 <= i < |r.value.labels| ==> Dot !in r.value.labels[i]
  {
    var labels := Split(domain);
    if !AllWithin(labels, MaxDomainLabel) then Err(Returned)
    else Ok(LabelSet(labels))
  }

  /** No label is longer than `max` bytes. */
  predicate AllWithin(labels: seq<Str>, max: nat) {
    forall i :: 0 <= i < |labels| ==> |labels[i]| <= max
  }

  /** `LabelSet::as_domain`: the labels joined with dots. Splitting the
      result at its dots gives back labels that hold no dot. */
  function AsDomain(ls: LabelSet): (d: Str)
    ensures |ls.labels| >= 1 && (forall i :: 0 <= i < |ls.labels| ==> Dot !in ls.labels[i])
            ==> Split(d) == ls.labels
  {
    if |ls.labels| >= 1 && forall i :: 0 <= i < |ls.labels| ==> Dot !in ls.labels[i] then
      SplitJoin(ls.labels);
      Join(ls.labels)
    else
      Join(ls.labels)
  }

  /** Every label set `from_domain` could have produced is recovered from
      its dotted form. */
  lemma FromDomainOfAsDomain(ls: LabelSet)
    requires |ls.labels| >= 1
    requires forall i :: 0 <= i < |ls.labels| ==> Dot !in ls.labels[i]
    requires AllWithin(ls.labels, MaxDomainLabel)
    ensures FromDomain(AsDomain(ls)) == Ok(ls)
  {
    SplitJoin(ls.labels);
  }

  /** Bytes of the wire form of `labels`: one length byte per label, the
      label bytes, and the final zero byte. */
  function NameLength(labels: seq<Str>): nat {
    if |labels| == 0 then 1 else |labels[0]| + 1 + NameLength(labels[1..])
  }

  /** The length-prefixed labels without the final zero byte; a label too
      long for its length byte (`label.len().try_into()?` into a `u8`) is
      an error. */
  function EncodeLabels(labels: seq<Str>): (r: Result<seq<Byte>>)
    ensures r.Ok? <==> forall i :: 0 <= i < |labels| ==> |labels[i]| <= MaxWireLabel
    ensures r.Err? ==> r.failure == Returned
  {
    if |labels| == 0 then Ok([])
    else if |labels[0]| > MaxWireLabel then Err(Returned)
    else
      assert forall i :: 1 <= i < |labels| ==> labels[1..][i - 1] == labels[i];
      var rest :- EncodeLabels(labels[1..]);
      Ok([|labels[0]|] + labels[0] + rest)
  }

  /** One label in front of others adds its length byte and its bytes. */
  lemma EncodeLabelsCons(l: Str, tail: seq<Str>)
    requires |l| <= MaxWireLabel
    ensures EncodeLabels([l] + tail) ==
      (if EncodeLabels(tail).Ok? then Ok([|l|] + l + EncodeLabels(tail).value) else EncodeLabels(tail))
  {
    assert ([l] + tail)[1..] == tail;
  }

  /** `LabelSet::encode` */
  function Encode(ls: LabelSet): (r: Result<seq<Byte>>)
    ensures r.Ok? <==> forall i :: 0 <= i < |ls.labels| ==> |ls.labels[i]| <= MaxWireLabel
    ensures r.Err? ==> r.failure == Returned
    ensures r.Ok? ==> |r.value| > 0 && r.value[|r.value| - 1] == 0
  {
    var body :- EncodeLabels(ls.labels);
    Ok(body + [0])
  }

  /** The length-prefixed labels take all of the wire length but the
      final zero byte. */
  lemma {:induction false} EncodeLabelsLength(labels: seq<Str>)
    requires EncodeLabels(labels).Ok?
    ensures |EncodeLabels(labels).value| + 1 == NameLength(labels)
    decreases |labels|
  {
    if |labels| > 0 {
      EncodeLabelsLength(labels[1..]);
    }
  }

  /** An encoded name is as long as its wire length. */
  lemma EncodeLength(ls: LabelSet)
    requires Encode(ls).Ok?
    ensures |Encode(ls).value| == NameLength(ls.labels)
  {
    EncodeLabelsLength(ls.labels);
  }

  /** The empty name is the zero byte alone. */
  lemma EncodeEmpty()
    ensures Encode(LabelSet([])) == Ok([0])
  {
    var e := Encode(LabelSet([]));
    assert e.Ok? && |e.value| == 1 && e.value[0] == 0;
    assert e.value == [0];
  }

  /** A label in front of an encodable name adds its length byte and its
      bytes in front of that name's encoding. */
  lemma EncodeCons(l: Str, tail: seq<Str>)
    requires |l| <= MaxWireLabel && Encode(LabelSet(tail)).Ok?
    ensures Encode(LabelSet([l] + tail)) == Ok([|l|] + l + Encode(LabelSet(tail)).value)
  {
    EncodeLabelsCons(l, tail);
    var t := EncodeLabels(tail).value;
    assert [|l|] + l + (t + [0]) == ([|l|] + l + t) + [0];
  }

  /** A label the decoder can produce: non-empty, fits its length byte,
      valid UTF-8. */
  predicate WireLabel(l: Str) {
    0 < |l| <= MaxWireLabel && Utf8(l)
  }

  /** Every label is one the decoder can produce. */
  predicate AllWire(labels: seq<Str>) {
    forall i :: 0 <= i < |labels| ==> WireLabel(labels[i])
  }

  /** Decoder labels in front of decoder labels. */
  lemma AllWireCons(l: Str, tail: seq<Str>)
    requires WireLabel(l) && AllWire(tail)
    ensures AllWire([l] + tail)
  {
    assert forall i :: 1 <= i < |[l] + tail| ==> ([l] + tail)[i] == tail[i - 1];
  }

  /** The label loop shared by `LabelSet::decode` and `parse_question`:
      starting at `pos`, read length-prefixed labels up to a zero length
      byte, and return the position of that zero byte with the labels. */
  function ReadLabels(buf: seq<Byte>, pos: nat): (r: Result<(nat, seq<Str>)>)
    ensures r.Ok? ==> pos <= r.value.0 < |buf| && buf[r.value.0] == 0
    ensures r.Ok? ==> AllWire(r.value.1)
    decreases |buf| - pos
  {
    if pos >= |buf| then Err(Panicked)
    else if buf[pos] == 0 then Ok((pos, []))
    else
      var length := buf[pos];
      if pos + 1 + length > |buf| then Err(Panicked)
      else
        var bytes := buf[pos + 1..pos + 1 + length];
        if !Utf8(bytes) then Err(Returned)
        else
          var rest :- ReadLabels(buf, pos + 1 + length);
          AllWireCons(bytes, rest.1);
          Ok((rest.0, [bytes] + rest.1))
  }

  /** What `ReadLabels` consumes is exactly the encoding of the labels it
      returns: decoding and re-encoding gives back the bytes. */
  lemma {:induction false} ReadLabelsEncodes(buf: seq<Byte>, pos: nat)
    requires ReadLabels(buf, pos).Ok?
    ensures var r := ReadLabels(buf, pos).value;
      Encode(LabelSet(r.1)) == Ok(buf[pos..r.0 + 1])
    decreases |buf| - pos
  {
    if buf[pos] == 0 {
      ReadLabelsStop(buf, pos);
      EncodeEmpty();
      assert buf[pos..pos + 1] == [0];
    } else {
      var next := pos + 1 + buf[pos];
      var l := buf[pos + 1..next];
      var rest := ReadLabels(buf, next).value;
      ReadLabelsUnfold(buf, pos);
      ReadLabelsEncodes(buf, next);
      EncodeCons(l, rest.1);
      SliceCons(buf, pos, next, rest.0 + 1);
    }
  }

  /** The bytes the label loop consumed are the encoding of the labels it
      read. */
  lemma ReadEncodes(buf: seq<Byte>, pos: nat, zero: nat, labels: seq<Str>)
    requires ReadLabels(buf, pos) == Ok((zero, labels))
    ensures Encode(LabelSet(labels)) == Ok(buf[pos..zero + 1])
  {
    ReadLabelsEncodes(buf, pos);
  }

  /** The label loop consumes exactly the wire length of the labels it
      returns. */
  lemma ReadLabelsLength(buf: seq<Byte>, pos: nat)
    requires ReadLabels(buf, pos).Ok?
    ensures ReadLabels(buf, pos).value.0 + 1 == pos + NameLength(ReadLabels(buf, pos).value.1)
  {
    ReadLabelsEncodes(buf, pos);
    EncodeLength(LabelSet(ReadLabels(buf, pos).value.1));
  }

  /** `LabelSet::decode`: the labels of the name at the start of `buf`. */
  function Decode(buf: seq<Byte>): (r: Result<LabelSet>)
    ensures r.Ok? ==> AllWire(r.value.labels)
    ensures r.Ok? ==> Encode(r.value).Ok? && |Encode(r.value).value| <= |buf|
    ensures r.Ok? ==> Encode(r.value).value == buf[..|Encode(r.value).value|]
  {
    var read :- ReadLabels(buf, 0);
    ReadEncodes(buf, 0, read.0, read.1);
    assert buf[0..read.0 + 1] == buf[..read.0 + 1];
    Ok(LabelSet(read.1))
  }

  /** The labels in front of the first empty one: an empty label encodes
      as a zero length byte, which the decoder takes for the end. */
  function UpToEmpty(labels: seq<Str>): (r: seq<Str>)
    ensures |r| <= |labels| && r == labels[..|r|]
    ensures forall i :: 0 <= i < |r| ==> |r[i]| > 0
    ensures |r| < |labels| ==> |labels[|r|]| == 0
  {
    if |labels| == 0 || |labels[0]| == 0 then []
    else [labels[0]] + UpToEmpty(labels[1..])
  }

  /** A slice is its first element, then the rest cut in two. */
  lemma SliceCons(s: seq<Byte>, a: nat, c: nat, d: nat)
    requires a < c <= d <= |s|
    ensures s[a..d] == [s[a]] + s[a + 1..c] + s[c..d]
  {
    assert s[a..d] == s[a..c] + s[c..d];
    assert s[a..c] == [s[a]] + s[a + 1..c];
  }

  /** `ReadLabels` stops on a zero length byte. */
  lemma ReadLabelsStop(buf: seq<Byte>, pos: nat)
    requires pos < |buf| && buf[pos] == 0
    ensures ReadLabels(buf, pos) == Ok((pos, []))
  {
  }

  /** How `ReadLabels` continues past one well-formed label. */
  lemma ReadLabelsUnfold(buf: seq<Byte>, pos: nat)
    requires pos < |buf| && buf[pos] != 0 && pos + 1 + buf[pos] <= |buf|
    requires Utf8(buf[pos + 1..pos + 1 + buf[pos]])
    requires ReadLabels(buf, pos + 1 + buf[pos]).Ok?
    ensures var rest := ReadLabels(buf, pos + 1 + buf[pos]).value;
      ReadLabels(buf, pos) == Ok((rest.0, [buf[pos + 1..pos + 1 + buf[pos]]] + rest.1))
  {
    var next := pos + 1 + buf[pos];
    var tmp := ReadLabels(buf, next);
    assert ReadLabels(buf, pos) == Ok((tmp.value.0, [buf[pos + 1..next]] + tmp.value.1));
  }

  /** Without empty labels, nothing is cut off. */
  lemma {:induction false} UpToEmptyOfNonEmpty(labels: seq<Str>)
    requires forall i :: 0 <= i < |labels| ==> |labels[i]| > 0
    ensures UpToEmpty(labels) == labels
    decreases |labels|
  {
    if |labels| > 0 {
      UpToEmptyOfNonEmpty(labels[1..]);
    }
  }

  /** The pieces of an encoded name that starts with label `l`. */
  lemma EncodedParts(buf: seq<Byte>, pos: nat, l: Str, tail: seq<Str>)
    requires |l| <= MaxWireLabel
    requires pos + NameLength([l] + tail) <= |buf|
    requires Encode(LabelSet([l] + tail)) == Ok(buf[pos..pos + NameLength([l] + tail)])
    ensures NameLength([l] + tail) == |l| + 1 + NameLength(tail)
    ensures buf[pos] == |l|
    ensures buf[pos + 1..pos + 1 + |l|] == l
    ensures Encode(LabelSet(tail)) == Ok(buf[pos + 1 + |l|..pos + NameLength([l] + tail)])
  {
    var labels := [l] + tail;
    assert labels[1..] == tail;
    EncodeCons(l, tail);
    LengthPrefixed(buf, pos, pos + NameLength(labels), l, Encode(LabelSet(tail)).value);
  }

  /** A length byte, a label and more bytes known to sit at `pos`, each
      on its own. */
  lemma LengthPrefixed(buf: seq<Byte>, pos: nat, end: nat, l: Str, t: seq<Byte>)
    requires |l| <= MaxWireLabel
    requires pos <= end <= |buf| && buf[pos..end] == [|l|] + l + t
    ensures buf[pos] == |l|
    ensures buf[pos + 1..pos + 1 + |l|] == l
    ensures buf[pos + 1 + |l|..end] == t
  {
    var enc := buf[pos..end];
    assert buf[pos] == enc[0];
    assert enc[1..1 + |l|] == l;
    SubSlice(buf, pos, enc, 1, 1 + |l|);
    assert enc[1 + |l|..] == t;
    SubSlice(buf, pos, enc, 1 + |l|, end - pos);
  }

  /** The wire form of `labels` sits in `buf` at `pos`, byte by byte. */
  predicate EncodedAt(buf: seq<Byte>, pos: nat, labels: seq<Str>)
    decreases |labels|
  {
    if |labels| == 0 then pos < |buf| && buf[pos] == 0
    else
      var next := pos + 1 + |labels[0]|;
      && next <= |buf|
      && buf[pos] == |labels[0]|
      && buf[pos + 1..next] == labels[0]
      && EncodedAt(buf, next, labels[1..])
  }

  /** An encoding found in `buf` lays out its labels there. */
  lemma {:induction false} EncodingIsEncodedAt(buf: seq<Byte>, pos: nat, labels: seq<Str>)
    requires forall i :: 0 <= i < |labels| ==> |labels[i]| <= MaxWireLabel
    requires pos + NameLength(labels) <= |buf|
    requires Encode(LabelSet(labels)) == Ok(buf[pos..pos + NameLength(labels)])
    ensures EncodedAt(buf, pos, labels)
    decreases |labels|
  {
    if |labels| == 0 {
      EncodeEmpty();
      assert buf[pos] == buf[pos..pos + 1][0];
    } else {
      var l := labels[0];
      var tail := labels[1..];
      assert labels == [l] + tail;
      EncodedParts(buf, pos, l, tail);
      EncodingIsEncodedAt(buf, pos + 1 + |l|, tail);
    }
  }

  /** Reading labels laid out at `pos` yields them up to the first empty
      one, and stops on that label's zero byte. */
  lemma {:induction false} ReadEncodedAt(buf: seq<Byte>, pos: nat, labels: seq<Str>)
    requires forall i :: 0 <= i < |labels| ==> Utf8(labels[i])
    requires EncodedAt(buf, pos, labels)
    ensures ReadLabels(buf, pos) == Ok((pos + NameLength(UpToEmpty(labels)) - 1, UpToEmpty(labels)))
    decreases |labels|
  {
    if |labels| == 0 || |labels[0]| == 0 {
      ReadLabelsStop(buf, pos);
    } else {
      var l := labels[0];
      var next := pos + 1 + |l|;
      var up := UpToEmpty(labels[1..]);
      ReadEncodedAt(buf, next, labels[1..]);
      ReadLabelsUnfold(buf, pos);
      assert UpToEmpty(labels) == [l] + up;
      assert ([l] + up)[1..] == up;
    }
  }

  /** Reading an encoded name back at any position yields its labels up to
      the first empty one, and stops on that label's zero byte. */
  lemma ReadEncoded(buf: seq<Byte>, pos: nat, labels: seq<Str>)
    requires forall i :: 0 <= i < |labels| ==> |labels[i]| <= MaxWireLabel && Utf8(labels[i])
    requires pos + NameLength(labels) <= |buf|
    requires Encode(LabelSet(labels)) == Ok(buf[pos..pos + NameLength(labels)])
    ensures ReadLabels(buf, pos) == Ok((pos + NameLength(UpToEmpty(labels)) - 1, UpToEmpty(labels)))
  {
    EncodingIsEncodedAt(buf, pos, labels);
    ReadEncodedAt(buf, pos, labels);
  }

  /** Decoding an encoding yields the labels before the first empty one;
      with no empty label that is the label set itself. */
  lemma DecodeEncode(ls: LabelSet)
    requires forall i :: 0 <= i < |ls.labels| ==> |ls.labels[i]| <= MaxWireLabel && Utf8(ls.labels[i])
    ensures Decode(Encode(ls).value) == Ok(LabelSet(UpToEmpty(ls.labels)))
    ensures (forall i :: 0 <= i < |ls.labels| ==> |ls.labels[i]| > 0) ==> Decode(Encode(ls).value) == Ok(ls)
  {
    var enc := Encode(ls).value;
    EncodeLength(ls);
    assert enc[0..NameLength(ls.labels)] == enc;
    ReadEncoded(enc, 0, ls.labels);
    if forall i :: 0 <= i < |ls.labels| ==> |ls.labels[i]| > 0 {
      UpToEmptyOfNonEmpty(ls.labels);
    }
  }

  /** An encoding of labels the decoder can produce, found at `pos` in
      any buffer, reads back as those labels, stopping on the encoding's
      final zero byte. */
  lemma ReadsEncoding(ls: LabelSet, buf: seq<Byte>, pos: nat)
    requires AllWire(ls.labels)
    requires pos + |Encode(ls).value| <= |buf| && buf[pos..pos + |Encode(ls).value|] == Encode(ls).value
    ensures ReadLabels(buf, pos) == Ok((pos + |Encode(ls).value| - 1, ls.labels))
  {
    EncodeLength(ls);
    ReadEncoded(buf, pos, ls.labels);
    UpToEmptyOfNonEmpty(ls.labels);
  }

  /** "google.com" splits into the labels "google" and "com". */
  lemma GoogleComLabels()
    ensures FromDomain([0x67, 0x6f, 0x6f, 0x67, 0x6c, 0x65, 0x2e, 0x63, 0x6f, 0x6d])
         == Ok(LabelSet([[0x67, 0x6f, 0x6f, 0x67, 0x6c, 0x65], [0x63, 0x6f, 0x6d]]))
  {
    GoogleComSplit();
  }

  /** The split behind it. */
  lemma GoogleComSplit()
    ensures Split([0x67, 0x6f, 0x6f, 0x67, 0x6c, 0x65, 0x2e, 0x63, 0x6f, 0x6d])
         == [[0x67, 0x6f, 0x6f, 0x67, 0x6c, 0x65], [0x63, 0x6f, 0x6d]]
  {
    var google: Str := [0x67, 0x6f, 0x6f, 0x67, 0x6c, 0x65];
    var com: Str := [0x63, 0x6f, 0x6d];
    assert Dot !in google && Dot !in com;
    SplitJoin([google, com]);
    assert Join([com]) == com;
    assert Join([google, com]) == google + [Dot] + com
        == [0x67, 0x6f, 0x6f, 0x67, 0x6c, 0x65, 0x2e, 0x63, 0x6f, 0x6d];
  }

  /** "google" and "com" encode as 06 'google' 03 'com' 00. */
  lemma GoogleComEncoding()
    ensures Encode(LabelSet([[0x67, 0x6f, 0x6f, 0x67, 0x6c, 0x65], [0x63, 0x6f, 0x6d]]))
         == Ok([0x06, 0x67, 0x6f, 0x6f, 0x67, 0x6c, 0x65, 0x03, 0x63, 0x6f, 0x6d, 0x00])
  {
    var google: Str := [0x67, 0x6f, 0x6f, 0x67, 0x6c, 0x65];
    var com: Str := [0x63, 0x6f, 0x6d];
    EncodeEmpty();
    EncodeCons(com, []);
    assert [com] == [com] + [];
    var e1: seq<Byte> := [3] + com + [0];
    assert Encode(LabelSet([com])) == Ok(e1);
    EncodeCons(google, [com]);
    assert [google, com] == [google] + [com];
    assert [6] + google + e1 == [0x06, 0x67, 0x6f, 0x6f, 0x67, 0x6c, 0x65, 0x03, 0x63, 0x6f, 0x6d, 0x00];
  }

  /** A 256-byte label passes `from_domain` but not `encode`. */
  lemma LongLabelGap()
    ensures var d: Str := seq(256, _ => 0x61);
            FromDomain(d) == Ok(LabelSet([d])) && Encode(LabelSet([d])) == Err(Returned)
  {
    var d: Str := seq(256, _ => 0x61);
    assert Dot !in d;
  }

  /** "a..b" has an empty middle label. */
  lemma EmptyLabelDomain()
    ensures FromDomain([0x61, 0x2e, 0x2e, 0x62]) == Ok(LabelSet([[0x61], [], [0x62]]))
  {
    var ls: seq<Str> := [[0x61], [], [0x62]];
    SplitJoin(ls);
    assert Join([[0x62]]) == [0x62];
    assert Join([[], [0x62]]) == [0x2e, 0x62];
    assert Join(ls) == [0x61, 0x2e, 0x2e, 0x62];
  }

  /** The empty label encodes as a zero byte in the middle of the name ... */
  lemma EmptyLabelEncoding()
    ensures Encode(LabelSet([[0x61], [], [0x62]])) == Ok([1, 0x61, 0, 1, 0x62, 0])
  {
    var a: Str := [0x61];
    var b: Str := [0x62];
    var empty: Str := [];
    EncodeEmpty();
    EncodeCons(b, []);
    assert [b] == [b] + [];
    var e1: seq<Byte> := [1] + b + [0];
    assert Encode(LabelSet([b])) == Ok(e1);
    EncodeCons(empty, [b]);
    assert [empty, b] == [empty] + [b];
    var e2: seq<Byte> := [0] + empty + e1;
    assert Encode(LabelSet([empty, b])) == Ok(e2);
    EncodeCons(a, [empty, b]);
    assert [a, empty, b] == [a] + [empty, b];
    assert [1] + a + e2 == [1, 0x61, 0, 1, 0x62, 0];
  }

  /** ... so decoding stops there and returns "a" alone. */
  lemma EmptyLabelEndsName()
    ensures Decode([1, 0x61, 0, 1, 0x62, 0]) == Ok(LabelSet([[0x61]]))
  {
    var ls: seq<Str> := [[0x61], [], [0x62]];
    EmptyLabelEncoding();
    assert Utf8([0x61]) && Utf8([]) && Utf8([0x62]);
    DecodeEncode(LabelSet(ls));
    assert UpToEmpty(ls) == [[0x61]] + UpToEmpty([[], [0x62]]);
    assert UpToEmpty(ls) == [[0x61]];
  }
}
