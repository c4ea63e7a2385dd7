/** Rust strings as the byte sequences they are stored as. A `String` or
    `&str` is its UTF-8 encoding; `len()` is the byte length, and splitting
    or joining on "." works byte by byte because '.' is ASCII. */
module Text {
  import opened Bytes

  type Str = seq<Byte>

  const Dot: Byte := 0x2E

  /** A UTF-8 continuation byte. */
  predicate Continuation(b: Byte) {
    0x80 <= b <= 0xBF
  }

  /** Well-formed UTF-8 as `String::from_utf8` accepts it (section 4 of
      RFC 3629): no overlong forms, no surrogates, nothing above U+10FFFF. */
  predicate Utf8(s: seq<Byte>) {
    Utf8From(s, 0)
  }

  /** The bytes of `s` from index `i` on are a sequence of well-formed
      UTF-8 characters. */
  predicate Utf8From(s: seq<Byte>, i: nat)
    requires i <= |s|
    decreases |s| - i
  {
    if i == |s| then true
    else if s[i] < 0x80 then Utf8From(s, i + 1)
    else if 0xC2 <= s[i] <= 0xDF then
      i + 2 <= |s| && Continuation(s[i + 1]) && Utf8From(s, i + 2)
    else if 0xE0 <= s[i] <= 0xEF then
      && i + 3 <= |s|
      && (if s[i] == 0xE0 then 0xA0 <= s[i + 1] <= 0xBF
          else if s[i] == 0xED then 0x80 <= s[i + 1] <= 0x9F
          else Continuation(s[i + 1]))
      && Continuation(s[i + 2])
      && Utf8From(s, i + 3)
    else if 0xF0 <= s[i] <= 0xF4 then
      && i + 4 <= |s|
      && (if s[i] == 0xF0 then 0x90 <= s[i + 1] <= 0xBF
          else if s[i] == 0xF4 then 0x80 <= s[i + 1] <= 0x8F
          else Continuation(s[i + 1]))
      && Continuation(s[i + 2])
      && Continuation(s[i + 3])
      && Utf8From(s, i + 4)
    else false
  }

  /** Every ASCII byte string is valid UTF-8. */
  lemma AsciiIsUtf8(s: seq<Byte>)
    requires forall i :: 0 <= i < |s| ==> s[i] < 0x80
    ensures Utf8(s)
  {
    AsciiFrom(s, 0);
  }

  /** An ASCII suffix is valid UTF-8. */
  lemma {:induction false} AsciiFrom(s: seq<Byte>, i: nat)
    requires i <= |s|
    requires forall j :: i <= j < |s| ==> s[j] < 0x80
    ensures Utf8From(s, i)
    decreases |s| - i
  {
    if i < |s| {
      AsciiFrom(s, i + 1);
    }
  }

  /** Position of the first `x` in `s`. */
  function IndexOf(s: seq<Byte>, x: Byte): (i: nat)
    requires x in s
    ensures i < |s| && s[i] == x && x !in s[..i]
  {
    if s[0] == x then 0
    else
      var j := IndexOf(s[1..], x);
      assert s[..j + 1] == [s[0]] + s[1..][..j];
      j + 1
  }

  /** `labels.join(".")` */
  function Join(parts: seq<Str>): Str {
    if |parts| == 0 then []
    else if |parts| == 1 then parts[0]
    else parts[0] + [Dot] + Join(parts[1..])
  }

  /** `s.split(".")`: the maximal dot-free pieces of `s`, in order. There is
      always at least one piece; "" splits into [""] and "a." into ["a", ""]. */
  function Split(s: Str): (parts: seq<Str>)
    ensures |parts| >= 1
    ensures forall i :: 0 <= i < |parts| ==> Dot !in parts[i]
    ensures Join(parts) == s
    decreases |s|
  {
    if Dot !in s then [s]
    else
      var i := IndexOf(s, Dot);
      var rest := Split(s[i + 1..]);
      assert ([s[..i]] + rest)[1..] == rest;
      assert s == s[..i] + [Dot] + s[i + 1..];
      [s[..i]] + rest
  }

  /** In a dot-free piece, a dot, and anything, the first dot is the one
      after the piece. */
  lemma FirstDot(a: Str, b: Str)
    requires Dot !in a
    ensures Dot in a + [Dot] + b
    ensures IndexOf(a + [Dot] + b, Dot) == |a|
    ensures (a + [Dot] + b)[..|a|] == a && (a + [Dot] + b)[|a| + 1..] == b
  {
    var s := a + [Dot] + b;
    assert s[|a|] == Dot;
    assert s[..|a|] == a;
    assert s[|a| + 1..] == b;
  }

  /** Splitting a join of dot-free pieces gives the pieces back. */
  lemma {:induction false} SplitJoin(parts: seq<Str>)
    requires |parts| >= 1
    requires forall i :: 0 <= i < |parts| ==> Dot !in parts[i]
    ensures Split(Join(parts)) == parts
    decreases |parts|
  {
    if |parts| > 1 {
      var rest := parts[1..];
      FirstDot(parts[0], Join(rest));
      assert forall i :: 0 <= i < |rest| ==> rest[i] == parts[i + 1];
      SplitJoin(rest);
      assert parts == [parts[0]] + rest;
    }
  }
}
