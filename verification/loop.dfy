/** The counted read loop that the question and answer decoders share:
    read an item, move the cursor to where it ended, and repeat a given
    number of times, stopping at the first failure. */
module Loop {
  import opened Wrappers
  import opened Bytes

  /** A reader of one item: from a start position to the position just
      after the item, and the item, in the order the Rust decoders return
      them. */
  type Step<T> = nat -> Result<(nat, T)>


  /** `count` items read one after another from `pos`, each starting where
      the previous one ended; the final position comes with them. The first
      failure ends the reading. */
  function Many<T>(read: Step<T>, pos: nat, count: nat): (r: Result<(nat, seq<T>)>)
    ensures count == 0 ==> r == Ok((pos, []))
    ensures r.Ok? ==> |r.value.1| == count
    decreases count
  {
    if count == 0 then Ok((pos, []))
    else
      var (next, x) :- read(pos);
      var rest :- Many(read, next, count - 1);
      Ok((rest.0, [x] + rest.1))
  }


  /** The items read so far in front of a result; a failure passes
      through. */
  function Then<T>(done: seq<T>, more: Result<(nat, seq<T>)>): Result<(nat, seq<T>)> {
    if more.Ok? then Ok((more.value.0, done + more.value.1)) else more
  }

  /** Nothing read yet: `Then` changes nothing. */
  lemma ThenNil<T>(more: Result<(nat, seq<T>)>)
    ensures Then([], more) == more
  {
    if more.Ok? {
      assert [] + more.value.1 == more.value.1;
    }
  }

  /** Putting two runs in front is putting their concatenation in front. */
  lemma ThenThen<T>(a: seq<T>, b: seq<T>, more: Result<(nat, seq<T>)>)
    ensures Then(a, Then(b, more)) == Then(a + b, more)
  {
    if more.Ok? {
      assert a + (b + more.value.1) == a + b + more.value.1;
    }
  }

  /** The counted loop of `DnsAnswerSet::decode` and of the corrected
      `parse_questions`, for any reader: push each item and move the cursor
      to where it ended. */
  method ReadMany<T>(read: Step<T>, pos: nat, count: nat) returns (r: Result<(nat, seq<T>)>)
    ensures r == Many(read, pos, count)
  {
    var current := pos;
    var items: seq<T> := [];
    ThenNil(Many(read, pos, count));
    for k := 0 to count
      invariant |items| == k
      invariant Many(read, pos, count) == Then(items, Many(read, current, count - k))
    {
      var step := read(current);
      if step.Err? {
        return Err(step.failure);
      }
      var (next, x) := step.value;
      ThenThen(items, [x], Many(read, next, count - k - 1));
      current := next;
      items := items + [x];
    }
    assert items + [] == items;
    return Ok((current, items));
  }


  /** A reader that goes from each offset to the next, producing `xs` on
      the way, reads all of `xs` and ends on the last offset. */
  lemma {:induction false} ManyReadsAll<T>(read: Step<T>, offsets: seq<nat>, xs: seq<T>)
    requires |offsets| == |xs| + 1
    requires forall i :: 0 <= i < |xs| ==> read(offsets[i]) == Ok((offsets[i + 1], xs[i]))
    ensures Many(read, offsets[0], |xs|) == Ok((offsets[|xs|], xs))
    decreases |xs|
  {
    if |xs| > 0 {
      ManyReadsAll(read, offsets[1..], xs[1..]);
      ManyOk(read, offsets[0], |xs| - 1, xs[0], offsets[1], offsets[|xs|], xs[1..]);
      assert [xs[0]] + xs[1..] == xs;
    }
  }

  /** One turn of the loop: an item read, then the rest. */
  lemma ManyOk<T>(read: Step<T>, pos: nat, k: nat, x: T, next: nat, end: nat, more: seq<T>)
    requires read(pos) == Ok((next, x))
    requires Many(read, next, k) == Ok((end, more))
    ensures Many(read, pos, k + 1) == Ok((end, [x] + more))
  {
  }


  /** Where the bytes `run` sit at `p`, `read` reads `x` from them and
      stops at their end. */
  ghost predicate ReadsRun<T>(read: Step<T>, buf: seq<Byte>, p: nat, run: seq<Byte>, x: T) {
    p + |run| <= |buf| && buf[p..p + |run|] == run ==> read(p) == Ok((p + |run|, x))
  }

  /** `read` reads item `i` from wherever the `i`-th run of bytes sits,
      for every item. */
  ghost predicate ReadsRuns<T>(read: Step<T>, buf: seq<Byte>, chunks: seq<seq<Byte>>, xs: seq<T>) {
    |chunks| == |xs| && forall i, p: nat :: 0 <= i < |xs| ==> ReadsRun(read, buf, p, chunks[i], xs[i])
  }

  /** A reader that reads item `i` from wherever the `i`-th run of bytes
      sits reads all `count` of the items from runs written one after
      another, and ends just past the last run, at `end`. */
  lemma ManyReadsRuns<T>(read: Step<T>, chunks: seq<seq<Byte>>, xs: seq<T>, buf: seq<Byte>, pos: nat,
                         count: nat, end: nat)
    requires ReadsRuns(read, buf, chunks, xs) && |xs| == count
    requires end == pos + |Concat(chunks)| <= |buf| && buf[pos..end] == Concat(chunks)
    ensures Many(read, pos, count) == Ok((end, xs))
  {
    var offsets := Offsets(chunks, pos);
    forall i | 0 <= i < |xs|
      ensures read(offsets[i]) == Ok((offsets[i + 1], xs[i]))
    {
      RunRead(read, chunks, xs, buf, pos, i);
    }
    ManyReadsAll(read, offsets, xs);
    OffsetsEnd(chunks, pos);
  }

  /** Item `i` is read from the `i`-th run, where the runs are written one
      after another from `pos`, and the reading ends where the next run
      starts. */
  lemma RunRead<T>(read: Step<T>, chunks: seq<seq<Byte>>, xs: seq<T>, buf: seq<Byte>, pos: nat, i: nat)
    requires |chunks| == |xs| && i < |xs|
    requires pos + |Concat(chunks)| <= |buf| && buf[pos..pos + |Concat(chunks)|] == Concat(chunks)
    requires ReadsRun(read, buf, Offsets(chunks, pos)[i], chunks[i], xs[i])
    ensures read(Offsets(chunks, pos)[i]) == Ok((Offsets(chunks, pos)[i + 1], xs[i]))
  {
    ChunkAt(chunks, buf, pos, i);
  }

  /** The items of a counted read, without the final cursor. */
  function Items<T>(r: Result<(nat, seq<T>)>): (s: Result<seq<T>>)
    ensures s.Ok? <==> r.Ok?
    ensures s.Ok? ==> s.value == r.value.1
    ensures s.Err? ==> s.failure == r.failure
  {
    if r.Ok? then Ok(r.value.1) else Err(r.failure)
  }

  /** A reader result with the item first turned round, cursor first. */
  function Flip<T>(r: Result<(T, nat)>): (f: Result<(nat, T)>)
    ensures f.Ok? <==> r.Ok?
    ensures f.Ok? ==> f.value == (r.value.1, r.value.0)
    ensures f.Err? ==> f.failure == r.failure
  {
    if r.Ok? then Ok((r.value.1, r.value.0)) else Err(r.failure)
  }
}
