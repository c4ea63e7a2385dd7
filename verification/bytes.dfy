/** Fixed-width machine integers and their big-endian byte layouts. */
module Bytes {

  type Byte = x: int | 0 <= x < 0x100
  type U16 = x: int | 0 <= x < 0x1_0000
  type U32 = x: int | 0 <= x < 0x1_0000_0000
  type I16 = x: int | -0x8000 <= x < 0x8000

  /** `u16::from_be_bytes` */
  function BE16(b: seq<Byte>): U16
    requires |b| == 2
  {
    b[0] as int * 0x100 + b[1]
  }

  /** `u32::from_be_bytes` */
  function BE32(b: seq<Byte>): U32
    requires |b| == 4
  {
    ((b[0] as int * 0x100 + b[1]) * 0x100 + b[2]) * 0x100 + b[3]
  }

  /** The unsigned big-endian value of any number of bytes
      (`usize::from_be_bytes` on eight of them). */
  function BigEndian(b: seq<Byte>): nat {
    if |b| == 0 then 0 else BigEndian(b[..|b| - 1]) * 0x100 + b[|b| - 1]
  }

  /** `u16::to_be_bytes` / `BufMut::put_u16`: the inverse of `BE16`. */
  function U16Bytes(n: U16): (b: seq<Byte>)
    ensures |b| == 2 && BE16(b) == n
  {
    [n / 0x100, n % 0x100]
  }

  /** `BufMut::put_u32`: the inverse of `BE32`. */
  function U32Bytes(n: U32): (b: seq<Byte>)
    ensures |b| == 4 && BE32(b) == n
  {
    var q1 := n / 0x100;
    var q2 := q1 / 0x100;
    [q2 / 0x100, q2 % 0x100, q1 % 0x100, n % 0x100]
  }

  /** Two's-complement reading of a 16-bit pattern (`i16::from_be_bytes`
      is `AsI16(BE16(..))`). */
  function AsI16(n: U16): (v: I16)
    ensures 0 <= v ==> v == n
  {
    if n < 0x8000 then n else n - 0x1_0000
  }

  /** `BufMut::put_i16`: the two's-complement bytes of `v`. */
  function I16Bytes(v: I16): (b: seq<Byte>)
    ensures |b| == 2 && AsI16(BE16(b)) == v
  {
    U16Bytes(if v < 0 then v + 0x1_0000 else v)
  }

  /** Reading two bytes and writing the value back gives the same bytes. */
  lemma U16BytesOfBE16(b: seq<Byte>)
    requires |b| == 2
    ensures U16Bytes(BE16(b)) == b
  {
  }

  /** Reading two bytes as an `i16` and writing it back gives the same
      bytes. */
  lemma I16BytesOfBE16(b: seq<Byte>)
    requires |b| == 2
    ensures I16Bytes(AsI16(BE16(b))) == b
  {
  }

  /** One byte appended to a value in base 256 is split off again by `/`
      and `%`. */
  lemma ShiftByte(q: nat, r: Byte)
    ensures (q * 0x100 + r) / 0x100 == q && (q * 0x100 + r) % 0x100 == r
  {
  }

  /** Reading four bytes and writing the value back gives the same bytes. */
  lemma U32BytesOfBE32(b: seq<Byte>)
    requires |b| == 4
    ensures U32Bytes(BE32(b)) == b
  {
    var hi := b[0] as int * 0x100 + b[1];
    var mid := hi * 0x100 + b[2];
    ShiftByte(mid, b[3]);
    ShiftByte(hi, b[2]);
    ShiftByte(b[0], b[1]);
  }

  /** Runs written one after another. */
  function Concat<T>(cs: seq<seq<T>>): (r: seq<T>)
    ensures |cs| == 0 ==> r == []
  {
    if |cs| == 0 then [] else cs[0] + Concat(cs[1..])
  }

  /** Where each run of `cs` starts, and where the last one ends, when
      they are written one after another from `pos`. */
  function Offsets<T>(cs: seq<seq<T>>, pos: nat): (o: seq<nat>)
    ensures |o| == |cs| + 1 && o[0] == pos
    ensures forall i :: 0 <= i < |cs| ==> o[i + 1] == o[i] + |cs[i]|
  {
    if |cs| == 0 then [pos]
    else
      var o := [pos] + Offsets(cs[1..], pos + |cs[0]|);
      assert forall i :: 1 <= i < |cs| ==> cs[i] == cs[1..][i - 1];
      o
  }

  /** Two runs known to sit at `pos` one after the other, each on its own. */
  lemma SplitAt<T>(buf: seq<T>, pos: nat, b: seq<T>, t: seq<T>)
    requires pos + |b + t| <= |buf| && buf[pos..pos + |b + t|] == b + t
    ensures buf[pos..pos + |b|] == b
    ensures pos + |b| + |t| <= |buf| && buf[pos + |b|..pos + |b| + |t|] == t
  {
    assert buf[pos..pos + |b|] == (b + t)[..|b|];
    assert buf[pos + |b|..pos + |b| + |t|] == (b + t)[|b|..];
  }

  /** Runs written one after another from `pos` each sit at their offset. */
  lemma {:induction false} ChunkAt<T>(cs: seq<seq<T>>, buf: seq<T>, pos: nat, i: nat)
    requires i < |cs|
    requires pos + |Concat(cs)| <= |buf| && buf[pos..pos + |Concat(cs)|] == Concat(cs)
    ensures var o := Offsets(cs, pos);
      o[i] <= o[i + 1] <= |buf| && buf[o[i]..o[i + 1]] == cs[i]
    decreases i
  {
    var tail := cs[1..];
    var next := pos + |cs[0]|;
    assert Concat(cs) == cs[0] + Concat(tail);
    SplitAt(buf, pos, cs[0], Concat(tail));
    var o := Offsets(cs, pos);
    var t := Offsets(tail, next);
    assert o == [pos] + t;
    if i > 0 {
      ChunkAt(tail, buf, next, i - 1);
      assert o[i] == t[i - 1] && o[i + 1] == t[i];
      assert cs[i] == tail[i - 1];
    } else {
      assert o[1] == next;
    }
  }

  /** The last offset is just past all of the runs. */
  lemma {:induction false} OffsetsEnd<T>(cs: seq<seq<T>>, pos: nat)
    ensures Offsets(cs, pos)[|cs|] == pos + |Concat(cs)|
    decreases |cs|
  {
    if |cs| > 0 {
      var next := pos + |cs[0]|;
      OffsetsEnd(cs[1..], next);
      assert Offsets(cs, pos) == [pos] + Offsets(cs[1..], next);
    }
  }

  /** A piece of bytes known to sit at `pos` sits at the matching place
      in the buffer. */
  lemma SubSlice<T>(buf: seq<T>, pos: nat, b: seq<T>, i: nat, j: nat)
    requires pos + |b| <= |buf| && buf[pos..pos + |b|] == b
    requires i <= j <= |b|
    ensures buf[pos + i..pos + j] == b[i..j]
  {
    forall k | 0 <= k < j - i
      ensures buf[pos + i..pos + j][k] == b[i..j][k]
    {
      assert buf[pos + i..pos + j][k] == buf[pos + i + k] == buf[pos..pos + |b|][i + k];
    }
  }
}
