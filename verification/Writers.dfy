/** The writer that owns an output and its represented prefix, and the child writers
    that may touch only their own region of it. */
module Writers {
  import opened Base
  import opened Output

  // ----- one contiguous buffer -----

  /** `exposed` with `patch` copied over the span at `offset`. */
  function Poked(exposed: seq<byte>, offset: nat, patch: seq<byte>): (after: seq<byte>)
    requires offset + |patch| <= |exposed|
    ensures |after| == |exposed|
  {
    exposed[..offset] + patch + exposed[offset + |patch|..]
  }

  lemma PokedOverlaid(exposed: seq<byte>, cursor: nat, offset: nat, patch: seq<byte>)
    requires cursor <= |exposed| && offset + |patch| <= |exposed|
    ensures Overlaid(exposed[..cursor], Poked(exposed, offset, patch)[..Max(cursor, offset + |patch|)], offset, patch)
  {
    var after := Poked(exposed, offset, patch);
    assert after[..Max(cursor, offset + |patch|)][offset..offset + |patch|] == patch;
  }

  lemma PokedIsOverlay(exposed: seq<byte>, offset: nat, patch: seq<byte>)
    requires offset + |patch| <= |exposed|
    ensures Poked(exposed, offset, patch) == Overlay(exposed, offset, patch)
  {
    assert exposed[..offset] + patch + exposed[offset + |patch|..] == Overlay(exposed, offset, patch);
  }

  /** Moving the suffix and then copying the prefix is one copy of both. */
  lemma PokedTwice(exposed: seq<byte>, offset: nat, end: nat, bytes: seq<byte>)
    requires offset < end && |bytes| >= 1 && end + |bytes| - 1 <= |exposed|
    ensures Poked(Poked(exposed, offset + |bytes|, exposed[offset + 1..end]), offset, bytes)
         == Poked(exposed, offset, bytes + exposed[offset + 1..end])
  {
    var suffix := exposed[offset + 1..end];
    var moved := Poked(exposed, offset + |bytes|, suffix);
    assert moved[..offset] == exposed[..offset];
    assert moved[offset + |bytes|..] == suffix + exposed[end + |bytes| - 1..];
  }

  /** When a span ending at `end` may have its reserved byte at `offset` expanded. */
  predicate ExpandFits(offset: nat, end: nat, len: nat, cursor: nat, limit: Option<nat>) {
    && offset < end <= cursor && len >= 1 && end + len - 1 <= USIZE_MAX
    && (limit.Some? ==> end + len - 1 <= limit.value)
  }

  lemma SlicePrefix(s: seq<byte>, n: nat, from: nat, to: nat)
    requires from <= to <= n <= |s|
    ensures s[..n][from..to] == s[from..to]
  {
  }

  lemma OverlaidIsExpanded(before: seq<byte>, after: seq<byte>, offset: nat, bytes: seq<byte>)
    requires offset < |before| && |bytes| >= 1
    requires Overlaid(before, after, offset, bytes + before[offset + 1..])
    ensures after == Expanded(before, offset, bytes)
  {
    var patch := bytes + before[offset + 1..];
    OverlaidIsOverlay(before, after, offset, patch);
    assert before[..offset] + patch == Expanded(before, offset, bytes);
  }

  /** Cursor and output owner. */
  class Writer {
    const output: Output
    var cursor: nat

    ghost predicate Valid()
      reads this, output
    {
      cursor <= |output.bytes| && cursor <= USIZE_MAX && cursor <= output.Capacity()
    }

    /** The represented bytes. */
    ghost function Rep(): (rep: seq<byte>)
      requires Valid()
      reads this, output
      ensures |rep| == cursor
    {
      output.bytes[..cursor]
    }

    /** Everything an operation leaves behind when it fails: only a failing growth
        callback may lose represented bytes. */
    twostate predicate Stopped(error: OutputError)
      requires old(Valid())
      reads this, output
    {
      && cursor == old(cursor)
      && (error.GrowFailed? ==> output.policy.GrowWith?)
      && (!error.GrowFailed? ==> Valid() && Rep() == old(Rep()))
    }

    /** What an obliging output can hold does not change. */
    twostate predicate SameCapacity()
      reads this, output
    {
      output.Capacity() == old(output.Capacity())
    }

    /** How a call ends that needs the output to expose `end` bytes and would like it to
        expose `suggested`. */
    twostate predicate Decided(end: nat, suggested: nat, r: Outcome)
      reads this, output
    {
      var policy, exposed := output.policy, |old(output.bytes)|;
      var request := GrowthRequest(old(cursor), end, Max(suggested, end));
      && (policy.Obliging() ==> (r.Ok? <==> end <= old(output.Capacity())))
      && (policy.FixedBytes? && end > exposed ==> r == Err(NeedMoreOutput(request, exposed)))
      && (policy.Bounded? && end > policy.limit ==> r == Err(LimitReached(request, policy.limit)))
      && (policy.GrowWith? && end > exposed ==> (r.Ok? <==> Suffices(policy.answer(old(output.calls), request), request)))
    }

    constructor (target: Output)
      ensures output == target && cursor == 0 && Valid() && Rep() == []
    {
      output, cursor := target, 0;
    }

    method Ensure(minimumLen: nat, suggestedLen: nat) returns (r: Outcome)
      requires Valid()
      modifies output
      ensures r.Ok? ==> Valid() && Rep() == old(Rep()) && minimumLen <= |output.bytes|
      ensures r.Err? ==> Stopped(r.error)
      ensures minimumLen <= USIZE_MAX ==> Decided(minimumLen, suggestedLen, r)
      ensures SameCapacity()
    {
      r := output.Ensure(GrowthRequest(cursor, minimumLen, Max(suggestedLen, minimumLen)));
    }

    /** Puts bytes anywhere; the cursor moves only if they end past it. */
    method WriteAt(offset: nat, bytes: seq<byte>) returns (r: Outcome)
      requires Valid()
      modifies this, output
      ensures r.Ok? ==> Valid() && Overlaid(old(Rep()), Rep(), offset, bytes)
      ensures r.Err? ==> Stopped(r.error)
      ensures offset + |bytes| > USIZE_MAX ==> r == Err(LengthOverflow)
      ensures offset + |bytes| <= USIZE_MAX ==> Decided(offset + |bytes|, old(cursor), r)
      ensures SameCapacity()
    {
      var end := offset + |bytes|;
      if end > USIZE_MAX {
        return Err(LengthOverflow);
      }
      var _ :- Ensure(end, Max(end, cursor));
      PokedOverlaid(output.bytes, cursor, offset, bytes);
      output.bytes := Poked(output.bytes, offset, bytes);
      cursor := Max(cursor, end);
      r := Ok(Unit);
    }

    /** Writes at the cursor and advances it. */
    method Write(bytes: seq<byte>) returns (r: Outcome)
      requires Valid()
      modifies this, output
      ensures r.Ok? ==> Valid() && Rep() == old(Rep()) + bytes
      ensures r.Err? ==> Stopped(r.error)
      ensures old(cursor) + |bytes| > USIZE_MAX ==> r == Err(LengthOverflow)
      ensures old(cursor) + |bytes| <= USIZE_MAX ==> Decided(old(cursor) + |bytes|, 0, r)
      ensures SameCapacity()
    {
      var end := cursor + |bytes|;
      if end > USIZE_MAX {
        return Err(LengthOverflow);
      }
      var _ :- Ensure(end, end);
      ghost var before := Rep();
      output.bytes := Poked(output.bytes, cursor, bytes);
      cursor := end;
      assert Rep() == before + bytes;
      r := Ok(Unit);
    }

    /** Puts `len` times one byte anywhere, as `WriteAt` puts bytes. */
    method FillAt(offset: nat, len: nat, value: byte) returns (r: Outcome)
      requires Valid()
      modifies this, output
      ensures r.Ok? ==> Valid() && Overlaid(old(Rep()), Rep(), offset, Repeat(value, len))
      ensures r.Err? ==> Stopped(r.error)
      ensures offset + len > USIZE_MAX ==> r == Err(LengthOverflow)
      ensures offset + len <= USIZE_MAX ==> Decided(offset + len, old(cursor), r)
      ensures SameCapacity()
    {
      r := WriteAt(offset, Repeat(value, len));
    }

    /** Copies bytes written earlier. */
    method ReadAt(offset: nat, n: nat) returns (r: Option<seq<byte>>)
      requires Valid()
      ensures offset + n <= cursor ==> r == Some(Rep()[offset..offset + n])
      ensures r.Some? <==> offset + n <= Min(|output.bytes|, USIZE_MAX)
    {
      if offset + n > USIZE_MAX || offset + n > |output.bytes| {
        return None;
      }
      assert offset + n <= cursor ==> output.bytes[offset..offset + n] == Rep()[offset..offset + n];
      r := Some(output.bytes[offset..offset + n]);
    }

    /** Replaces the reserved byte at `offset` by `bytes`, moving what follows it up to
        `end` inside the represented range. */
    method ExpandSpan(offset: nat, end: nat, bytes: seq<byte>, limit: Option<nat>)
      returns (r: Result<nat, OutputError>)
      requires Valid()
      modifies this, output
      ensures r.Ok? ==>
                && ExpandFits(offset, end, |bytes|, old(cursor), limit) && r.value == end + |bytes| - 1
                && Valid() && Overlaid(old(Rep()), Rep(), offset, bytes + old(Rep())[offset + 1..end])
      ensures r.Err? ==> Stopped(r.error)
      ensures offset + 1 <= USIZE_MAX && !(offset < end <= old(cursor)) ==> r == Err(Backwards(offset, end))
      ensures output.policy.Obliging() && ExpandFits(offset, end, |bytes|, old(cursor), limit) ==>
                (r.Ok? <==> end + |bytes| - 1 <= old(output.Capacity()))
      ensures SameCapacity()
    {
      hide Overlaid, Poked, Policy.Obliging;
      var suffix := offset + 1;
      if suffix > USIZE_MAX {
        return Err(LengthOverflow);
      }
      if suffix > end || end > cursor {
        return Err(Backwards(offset, end));
      }
      if |bytes| == 0 || end + |bytes| - 1 > USIZE_MAX {
        return Err(LengthOverflow);
      }
      var added := |bytes| - 1;
      var expanded := end + added;
      if limit.Some? && expanded > limit.value {
        return Err(ChildOverflow(expanded, limit.value));
      }
      var _ :- Ensure(expanded, Max(expanded, cursor));
      ghost var exposed := output.bytes;
      ghost var patch := bytes + exposed[suffix..end];
      SlicePrefix(exposed, cursor, suffix, end);
      PokedOverlaid(exposed, cursor, offset, patch);
      PokedTwice(exposed, offset, end, bytes);
      output.bytes := Poked(output.bytes, suffix + added, output.bytes[suffix..end]);
      output.bytes := Poked(output.bytes, offset, bytes);
      cursor := Max(cursor, expanded);
      r := Ok(expanded);
    }

    /** Expands a reserved one-byte prefix of the represented bytes. */
    method ExpandIntegerAt(offset: nat, bytes: seq<byte>) returns (r: Outcome)
      requires Valid()
      modifies this, output
      ensures r.Ok? ==>
                && ExpandFits(offset, old(cursor), |bytes|, old(cursor), None)
                && Valid() && Rep() == Expanded(old(Rep()), offset, bytes)
      ensures r.Err? ==> Stopped(r.error)
      ensures output.policy.Obliging() && ExpandFits(offset, old(cursor), |bytes|, old(cursor), None) ==>
                (r.Ok? <==> old(cursor) + |bytes| - 1 <= old(output.Capacity()))
      ensures SameCapacity()
    {
      var expanded :- ExpandSpan(offset, cursor, bytes, None);
      OverlaidIsExpanded(old(Rep()), Rep(), offset, bytes);
      r := Ok(Unit);
    }

    /** Starts a sequential child at or after the cursor. */
    method ChildAt(position: nat) returns (r: Result<ChildWriter, OutputError>)
      requires Valid()
      modifies this, output
      ensures position < old(cursor) ==> r == Err(Backwards(position, old(cursor)))
      ensures r.Err? ==> Stopped(r.error)
      ensures r.Ok? ==>
                && fresh(r.value) && r.value.writer == this && r.value.limit == None
                && r.value.start == r.value.cursor == position && r.value.Valid()
                && |Rep()| == position && old(Rep()) <= Rep()
      ensures output.policy.Obliging() && old(cursor) <= position <= USIZE_MAX ==>
                (r.Ok? <==> position <= old(output.Capacity()))
      ensures SameCapacity()
    {
      if position < cursor {
        return Err(Backwards(position, cursor));
      }
      if position > USIZE_MAX {
        return Err(LengthOverflow);
      }
      var _ :- Ensure(position, position);
      ghost var before := Rep();
      cursor := position;
      assert Rep()[..old(cursor)] == before;
      var child := new ChildWriter(this, position, position, None);
      r := Ok(child);
    }

    /** Starts a child over `[position, position + len)`, which may lie before the cursor. */
    method FixedChildAt(position: nat, len: nat) returns (r: Result<ChildWriter, OutputError>)
      requires Valid()
      modifies output
      ensures r.Err? ==> Stopped(r.error)
      ensures r.Ok? ==>
                && fresh(r.value) && r.value.writer == this && r.value.limit == Some(position + len)
                && r.value.start == r.value.cursor == position && r.value.Valid()
                && Rep() == old(Rep()) && position + len <= USIZE_MAX
      ensures output.policy.Obliging() && position + len <= USIZE_MAX ==>
                (r.Ok? <==> position + len <= old(output.Capacity()))
      ensures SameCapacity()
    {
      var end := position + len;
      if end > USIZE_MAX {
        return Err(LengthOverflow);
      }
      var _ :- Ensure(end, Max(end, cursor));
      var child := new ChildWriter(this, position, position, Some(end));
      r := Ok(child);
    }
  }

  /** `rep` with the byte at `offset` replaced by `bytes`. */
  function Expanded(rep: seq<byte>, offset: nat, bytes: seq<byte>): (after: seq<byte>)
    requires offset < |rep|
    ensures |after| == |rep| - 1 + |bytes|
  {
    rep[..offset] + bytes + rep[offset + 1..]
  }

  /** Byte by byte: what follows the replaced byte moves by the bytes added. */
  lemma ExpandedBytes(rep: seq<byte>, offset: nat, bytes: seq<byte>, i: nat)
    requires offset < |rep| && bytes != [] && i < |rep| - 1 + |bytes|
    ensures Expanded(rep, offset, bytes)[i] ==
              if i < offset then rep[i] else if i < offset + |bytes| then bytes[i - offset] else rep[i - |bytes| + 1]
  {
  }

  /** Restricted sequential cursor over part of a writer's output. */
  class ChildWriter {
    const writer: Writer
    const start: nat
    const limit: Option<nat>
    var cursor: nat

    /** An unlimited child moves together with its parent; a limited child stays inside
        its region. Neither is ahead of the represented bytes once it has written. */
    ghost predicate Valid()
      reads this, writer, writer.output
    {
      && writer.Valid() && start <= cursor <= USIZE_MAX
      && (limit.None? ==> cursor == writer.cursor)
      && (limit.Some? ==> cursor <= limit.value)
      && (cursor <= writer.cursor || cursor == start)
    }

    ghost function Rep(): (rep: seq<byte>)
      requires Valid()
      reads this, writer, writer.output
      ensures |rep| == writer.cursor
    {
      writer.Rep()
    }

    /** Whether this child may end at `end`. */
    predicate Fits(end: nat) {
      end <= USIZE_MAX && (limit.Some? ==> end <= limit.value)
    }

    constructor (parent: Writer, first: nat, position: nat, bound: Option<nat>)
      requires parent.Valid() && first <= position <= USIZE_MAX
      requires bound.None? ==> position == parent.cursor
      requires bound.Some? ==> position <= bound.value
      requires position <= parent.cursor || position == first
      ensures writer == parent && start == first && cursor == position && limit == bound
      ensures Valid()
    {
      writer, start, cursor, limit := parent, first, position, bound;
    }

    /** A failed step leaves the child and, except after a failing growth callback, the
        represented bytes as they were. */
    twostate predicate Stopped(error: OutputError)
      requires old(Valid())
      reads this, writer, writer.output
    {
      cursor == old(cursor) && writer.Stopped(error)
    }

    /** Appends to what this child has emitted. */
    method Write(bytes: seq<byte>) returns (r: Outcome)
      requires Valid()
      modifies this, writer, writer.output
      ensures r.Ok? ==>
                && Valid() && cursor == old(cursor) + |bytes| && Fits(cursor)
                && Overlaid(old(Rep()), Rep(), old(cursor), bytes)
                && (limit.None? ==> Rep() == old(Rep()) + bytes)
      ensures r.Err? ==> Stopped(r.error)
      ensures limit.Some? && limit.value < old(cursor) + |bytes| <= USIZE_MAX ==>
                r == Err(ChildOverflow(old(cursor) + |bytes|, limit.value))
      ensures writer.output.policy.Obliging() && Fits(old(cursor) + |bytes|) ==>
                (r.Ok? <==> old(cursor) + |bytes| <= old(writer.output.Capacity()))
      ensures writer.SameCapacity()
    {
      var end := cursor + |bytes|;
      if end > USIZE_MAX {
        return Err(LengthOverflow);
      }
      if limit.Some? && end > limit.value {
        return Err(ChildOverflow(end, limit.value));
      }
      var _ :- writer.WriteAt(cursor, bytes);
      cursor := end;
      if limit.None? {
        OverlaidIsOverlay(old(Rep()), Rep(), old(cursor), bytes);
        OverlayAtEnd(old(Rep()), bytes);
      }
      r := Ok(Unit);
    }

    /** Zero-fills forward to an absolute position. */
    method FillTo(position: usize) returns (r: Outcome)
      requires Valid()
      modifies this, writer, writer.output
      ensures position < old(cursor) ==> r == Err(Backwards(position, old(cursor)))
      ensures r.Ok? ==>
                && position >= old(cursor) && Valid() && cursor == position && Fits(position)
                && Overlaid(old(Rep()), Rep(), old(cursor), Zeros(position - old(cursor)))
                && (limit.None? ==> Rep() == old(Rep()) + Zeros(position - old(cursor)))
      ensures r.Err? ==> Stopped(r.error)
      ensures writer.output.policy.Obliging() && old(cursor) <= position && Fits(position) ==>
                (r.Ok? <==> position <= old(writer.output.Capacity()))
      ensures writer.SameCapacity()
    {
      if position < cursor {
        return Err(Backwards(position, cursor));
      }
      if limit.Some? && position > limit.value {
        return Err(ChildOverflow(position, limit.value));
      }
      var _ :- writer.FillAt(cursor, position - cursor, 0);
      cursor := position;
      assert Repeat(0, position - old(cursor)) == Zeros(position - old(cursor));
      if limit.None? {
        OverlaidIsOverlay(old(Rep()), Rep(), old(cursor), Zeros(position - old(cursor)));
        OverlayAtEnd(old(Rep()), Zeros(position - old(cursor)));
      }
      r := Ok(Unit);
    }

    /** Copies bytes this child already emitted, and no others. */
    method ReadAt(offset: nat, n: nat) returns (r: Option<seq<byte>>)
      requires Valid() && cursor <= writer.cursor
      ensures r == if start <= offset && offset + n <= cursor then Some(Rep()[offset..offset + n]) else None
    {
      if offset + n > USIZE_MAX || offset < start || offset + n > cursor {
        return None;
      }
      r := writer.ReadAt(offset, n);
    }

    /** Rewrites bytes this child already emitted. */
    method PatchAt(offset: nat, bytes: seq<byte>) returns (r: Outcome)
      requires Valid()
      modifies writer, writer.output
      ensures offset + |bytes| > USIZE_MAX ==> r == Err(LengthOverflow)
      ensures offset < start && offset + |bytes| <= USIZE_MAX ==> r == Err(Backwards(offset, start))
      ensures start <= offset && cursor < offset + |bytes| <= USIZE_MAX ==> r == Err(Backwards(offset + |bytes|, cursor))
      ensures r.Ok? ==>
                && start <= offset && offset + |bytes| <= cursor
                && Valid() && Overlaid(old(Rep()), Rep(), offset, bytes)
                && (cursor <= old(writer.cursor) ==> Rep() == Overlay(old(Rep()), offset, bytes))
      ensures r.Err? ==> Stopped(r.error)
      ensures writer.output.policy.Obliging() && start <= offset && offset + |bytes| <= cursor ==>
                (r.Ok? <==> offset + |bytes| <= old(writer.output.Capacity()))
      ensures writer.SameCapacity()
    {
      var end := offset + |bytes|;
      if end > USIZE_MAX {
        return Err(LengthOverflow);
      }
      if offset < start {
        return Err(Backwards(offset, start));
      }
      if end > cursor {
        return Err(Backwards(end, cursor));
      }
      r := writer.WriteAt(offset, bytes);
      if r.Ok? && cursor <= old(writer.cursor) {
        OverlaidIsOverlay(old(Rep()), Rep(), offset, bytes);
      }
    }

    /** Expands a reserved byte without crossing this child's end. */
    method ExpandIntegerAt(offset: nat, bytes: seq<byte>) returns (r: Outcome)
      requires Valid()
      modifies this, writer, writer.output
      ensures offset < start ==> r == Err(Backwards(offset, start))
      ensures r.Ok? ==>
                && start <= offset && ExpandFits(offset, old(cursor), |bytes|, old(writer.cursor), limit)
                && Valid() && cursor == old(cursor) + |bytes| - 1
                && Overlaid(old(Rep()), Rep(), offset, bytes + old(Rep())[offset + 1..old(cursor)])
                && (limit.None? ==> Rep() == Expanded(old(Rep()), offset, bytes))
      ensures r.Err? ==> Stopped(r.error)
      ensures writer.output.policy.Obliging() && start <= offset
              && ExpandFits(offset, old(cursor), |bytes|, old(writer.cursor), limit) ==>
                (r.Ok? <==> old(cursor) + |bytes| - 1 <= old(writer.output.Capacity()))
      ensures writer.SameCapacity()
    {
      if offset < start {
        return Err(Backwards(offset, start));
      }
      var expanded :- writer.ExpandSpan(offset, cursor, bytes, limit);
      cursor := expanded;
      if limit.None? {
        OverlaidIsExpanded(old(Rep()), Rep(), offset, bytes);
      }
      r := Ok(Unit);
    }

    /** Accepts exactly a full region. */
    method Finish() returns (r: Outcome)
      requires Valid()
      ensures r == if limit.Some? && cursor != limit.value then Err(ChildIncomplete(cursor, limit.value)) else Ok(Unit)
    {
      if limit.Some? && cursor != limit.value {
        return Err(ChildIncomplete(cursor, limit.value));
      }
      r := Ok(Unit);
    }
  }
}
