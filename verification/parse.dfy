/** Cursor-passing big-endian readers (src/parse/parse.rs). Each takes a
    buffer and a position and returns the position just past what it read
    together with the value read. `Bytes::slice` panics on a range past the
    end of the buffer, so an out-of-range read ends in `Err(Panicked)`. */
module Parse {
  import opened Wrappers
  import opened Bytes
  import opened Text

  /** `buf.slice(lo..hi)` */
  function Slice(buf: seq<Byte>, lo: nat, hi: nat): (r: Result<seq<Byte>>)
    requires lo <= hi
    ensures r.Ok? <==> hi <= |buf|
    ensures r.Ok? ==> r.value == buf[lo..hi]
    ensures r.Err? ==> r.failure == Panicked
  {
    if hi > |buf| then Err(Panicked) else Ok(buf[lo..hi])
  }

  /** `<[u8; n]>::try_from(slice)`: succeeds only when the lengths agree. */
  function ToArray(s: seq<Byte>, n: nat): (r: Result<seq<Byte>>)
    ensures r.Ok? <==> |s| == n
    ensures r.Ok? ==> r.value == s
    ensures r.Err? ==> r.failure == Returned
  {
    if |s| == n then Ok(s) else Err(Returned)
  }

  /** Width of `usize` on a 64-bit target. */
  const UsizeBytes: nat := 8

  /** `parse_u8` */
  function ParseU8(buf: seq<Byte>, pos: nat): (r: Result<(nat, Byte)>)
    ensures r.Ok? <==> pos + 1 <= |buf|
    ensures r.Err? ==> r.failure == Panicked
    ensures r.Ok? ==> r.value.0 == pos + 1 && r.value.1 == buf[pos]
  {
    // the `try_into` to a one-byte array cannot fail on a one-byte slice
    var bytes :- Slice(buf, pos, pos + 1);
    Ok((pos + 1, bytes[0]))
  }

  /** `parse_u16`: the two bytes at `pos`, big-endian. */
  function ParseU16(buf: seq<Byte>, pos: nat): (r: Result<(nat, U16)>)
    ensures r.Ok? <==> pos + 2 <= |buf|
    ensures r.Err? ==> r.failure == Panicked
    ensures r.Ok? ==> r.value == (pos + 2, BE16(buf[pos..pos + 2]))
  {
    var bytes :- Slice(buf, pos, pos + 2);
    Ok((pos + 2, BE16(bytes)))
  }

  /** `parse_u32`: the four bytes at `pos`, big-endian. */
  function ParseU32(buf: seq<Byte>, pos: nat): (r: Result<(nat, U32)>)
    ensures r.Ok? <==> pos + 4 <= |buf|
    ensures r.Err? ==> r.failure == Panicked
    ensures r.Ok? ==> r.value == (pos + 4, BE32(buf[pos..pos + 4]))
  {
    var bytes :- Slice(buf, pos, pos + 4);
    Ok((pos + 4, BE32(bytes)))
  }

  /** `parse_u16` reads back what `put_u16` wrote, wherever it sits, and
      what it read writes back as the same two bytes. */
  lemma ParseU16Reads(buf: seq<Byte>, pos: nat, n: U16)
    requires pos + 2 <= |buf|
    ensures ParseU16(buf, pos) == Ok((pos + 2, n)) <==> buf[pos..pos + 2] == U16Bytes(n)
  {
    U16BytesOfBE16(buf[pos..pos + 2]);
  }

  /** `parse_u32` reads back what `put_u32` wrote, wherever it sits, and
      what it read writes back as the same four bytes. */
  lemma ParseU32Reads(buf: seq<Byte>, pos: nat, n: U32)
    requires pos + 4 <= |buf|
    ensures ParseU32(buf, pos) == Ok((pos + 4, n)) <==> buf[pos..pos + 4] == U32Bytes(n)
  {
    U32BytesOfBE32(buf[pos..pos + 4]);
  }

  /** `parse_string` as written. The length byte is a one-byte slice, and
      turning it into the eight-byte fixed `usize::from_be_bytes` needs
      fails, so the function returns an error on every in-range position and
      panics on every other one: it never succeeds. */
  function ParseString(buf: seq<Byte>, pos: nat): (r: Result<(nat, Str)>)
    ensures pos + 1 <= |buf| ==> r == Err(Returned)
    ensures pos + 1 > |buf| ==> r == Err(Panicked)
  {
    var lengthBytes :- Slice(buf, pos, pos + 1);
    StringAfterLength(buf, pos, lengthBytes)
  }

  /** The rest of `parse_string` once the length slice is taken: convert it
      to a `usize`, require it below 255, then take that many bytes. */
  function StringAfterLength(buf: seq<Byte>, pos: nat, lengthBytes: seq<Byte>): (r: Result<(nat, Str)>)
    ensures |lengthBytes| != UsizeBytes ==> r == Err(Returned)
    ensures r.Ok? ==> BigEndian(lengthBytes) < 0xFF && r.value.0 == pos + 1 + |r.value.1|
  {
    var fixed :- ToArray(lengthBytes, UsizeBytes);
    var length := BigEndian(fixed);
    if !(length < 0xFF) then Err(Returned)
    else
      var s :- Slice(buf, pos + 1, pos + 1 + length);
      if !Utf8(s) then Err(Returned) else Ok((pos + 1 + length, s))
  }

  /** `parse_string` with the length read as the single byte it is: a
      length below 255, then that many bytes of UTF-8. */
  function ParseStringFixed(buf: seq<Byte>, pos: nat): (r: Result<(nat, Str)>)
    ensures r.Ok? <==>
      && pos + 1 <= |buf|
      && buf[pos] < 0xFF
      && pos + 1 + buf[pos] <= |buf|
      && Utf8(buf[pos + 1..pos + 1 + buf[pos]])
    ensures r.Ok? ==> |r.value.1| == buf[pos] && r.value.0 == pos + 1 + |r.value.1|
    ensures r.Ok? ==> r.value.1 == buf[pos + 1..r.value.0]
  {
    var length :- ParseU8(buf, pos);
    if !(length.1 < 0xFF) then Err(Returned)
    else
      var s :- Slice(buf, pos + 1, pos + 1 + length.1);
      if !Utf8(s) then Err(Returned) else Ok((pos + 1 + length.1, s))
  }

  /** `parse_data`: exactly `len` bytes. */
  function ParseData(buf: seq<Byte>, pos: nat, len: nat): (r: Result<(nat, seq<Byte>)>)
    ensures r.Ok? <==> pos + len <= |buf|
    ensures r.Err? ==> r.failure == Panicked
    ensures r.Ok? ==> r.value.0 == pos + len && |r.value.1| == len
    ensures r.Ok? ==> r.value.1 == buf[pos..pos + len]
  {
    var data :- Slice(buf, pos, pos + len);
    Ok((pos + len, data))
  }

  /** The fixed reader reads back a length-prefixed string wherever it
      sits, and leaves the cursor just past it. */
  lemma ParseStringFixedReads(buf: seq<Byte>, pos: nat, s: Str)
    requires |s| < 0xFF && Utf8(s)
    requires pos + 1 + |s| <= |buf| && buf[pos] == |s| && buf[pos + 1..pos + 1 + |s|] == s
    ensures ParseStringFixed(buf, pos) == Ok((pos + 1 + |s|, s))
  {
  }

  /** The as-written reader rejects the well-formed string "abc" that the
      fixed reader accepts. */
  lemma ParseStringRejectsAbc()
    ensures ParseString([3, 0x61, 0x62, 0x63], 0) == Err(Returned)
    ensures ParseStringFixed([3, 0x61, 0x62, 0x63], 0) == Ok((4, [0x61, 0x62, 0x63]))
  {
    AsciiIsUtf8([0x61, 0x62, 0x63]);
    ParseStringFixedReads([3, 0x61, 0x62, 0x63], 0, [0x61, 0x62, 0x63]);
  }
}
