/** Whole runs of writer calls: what they represent, on which outputs they succeed,
    and what a child can never touch. */
module OutputRuns {
  import opened Base
  import opened Output
  import opened Writers

  /** One call on a child writer. */
  datatype Step =
    | Emit(bytes: seq<byte>)
    | FillTo(position: nat)
    | Patch(offset: nat, bytes: seq<byte>)
    | Expand(offset: nat, bytes: seq<byte>)

  /** One call on the owning writer; children are finished after their steps. */
  datatype Call =
    | Write(bytes: seq<byte>)
    | WriteAt(offset: nat, bytes: seq<byte>)
    | FillAt(offset: nat, len: nat, value: byte)
    | ExpandAt(offset: nat, bytes: seq<byte>)
    | WithChild(position: nat, steps: seq<Step>)
    | WithFixedChild(position: nat, len: nat, steps: seq<Step>)

  /** What a run represents without looking at any output: it is refused, or it starts
      past the cursor and leaves bytes to the output's discretion. */
  datatype Effect = Refused | Gap | Represents(rep: seq<byte>)

  /** What a child step does: it is refused, or puts `patch` at `offset` and moves on. */
  datatype Edit = NoEdit | Edit(offset: nat, patch: seq<byte>, cursor: nat)

  /** The bytes a child works on and its cursor. */
  datatype Region = Closed | Region(rep: seq<byte>, cursor: nat)

  // ----- meaning -----

  predicate Within(end: nat, limit: Option<nat>) {
    end <= USIZE_MAX && (limit.Some? ==> end <= limit.value)
  }

  function EditOf(rep: seq<byte>, start: nat, cursor: nat, limit: Option<nat>, step: Step): (e: Edit)
    requires start <= cursor && Within(cursor, limit)
    ensures e.Edit? ==>
              && start <= e.offset && cursor <= e.cursor && Within(e.cursor, limit)
              && e.offset <= cursor && e.offset + |e.patch| <= e.cursor <= Max(cursor, e.offset + |e.patch|)
  {
    match step
    case Emit(bytes) =>
      if !Within(cursor + |bytes|, limit) then NoEdit else Edit(cursor, bytes, cursor + |bytes|)
    case FillTo(position) =>
      if position < cursor || !Within(position, limit) then NoEdit else Edit(cursor, Zeros(position - cursor), position)
    case Patch(offset, bytes) =>
      if offset < start || offset + |bytes| > cursor then NoEdit else Edit(offset, bytes, cursor)
    case Expand(offset, bytes) =>
      if offset < start || !ExpandFits(offset, cursor, |bytes|, |rep|, limit) then NoEdit
      else Edit(offset, bytes + rep[offset + 1..cursor], cursor + |bytes| - 1)
  }

  function ApplySteps(rep: seq<byte>, start: nat, cursor: nat, limit: Option<nat>, steps: seq<Step>): (r: Region)
    requires start <= cursor <= |rep| && Within(cursor, limit) && (limit.None? ==> cursor == |rep|)
    ensures r.Region? ==>
              && cursor <= r.cursor <= |r.rep| && |rep| <= |r.rep| && (limit.None? ==> r.cursor == |r.rep|)
              && |r.rep| == Max(|rep|, r.cursor)
    decreases |steps|
  {
    if steps == [] then Region(rep, cursor)
    else
      match EditOf(rep, start, cursor, limit, steps[0])
      case NoEdit => Closed
      case Edit(offset, patch, next) => ApplySteps(Overlay(rep, offset, patch), start, next, limit, steps[1..])
  }

  function Finished(region: Region, limit: Option<nat>): Effect {
    if region.Closed? || (limit.Some? && region.cursor != limit.value) then Refused else Represents(region.rep)
  }

  function Apply(rep: seq<byte>, call: Call): (r: Effect)
    ensures r.Represents? ==> |rep| <= |r.rep|
  {
    match call
    case Write(bytes) =>
      if |rep| + |bytes| > USIZE_MAX then Refused else Represents(rep + bytes)
    case WriteAt(offset, bytes) =>
      if offset + |bytes| > USIZE_MAX then Refused
      else if offset > |rep| then Gap
      else Represents(Overlay(rep, offset, bytes))
    case FillAt(offset, len, value) =>
      if offset + len > USIZE_MAX then Refused
      else if offset > |rep| then Gap
      else Represents(Overlay(rep, offset, Repeat(value, len)))
    case ExpandAt(offset, bytes) =>
      if !ExpandFits(offset, |rep|, |bytes|, |rep|, None) then Refused
      else Represents(Expanded(rep, offset, bytes))
    case WithChild(position, steps) =>
      if position < |rep| || position > USIZE_MAX then Refused
      else if position > |rep| then Gap
      else Finished(ApplySteps(rep, position, position, None, steps), None)
    case WithFixedChild(position, len, steps) =>
      if position + len > USIZE_MAX then Refused
      else if position > |rep| then Gap
      else Finished(ApplySteps(rep, position, position, Some(position + len), steps), Some(position + len))
  }

  /** The representation after a whole run. */
  function ApplyAll(rep: seq<byte>, calls: seq<Call>): (r: Effect)
    ensures r.Represents? ==> |rep| <= |r.rep|
    decreases |calls|
  {
    if calls == [] then Represents(rep)
    else
      match Apply(rep, calls[0])
      case Refused => Refused
      case Gap => Gap
      case Represents(next) => ApplyAll(next, calls[1..])
  }

  /** The call starts past the represented bytes, and would end within `usize`. */
  predicate StartsPast(rep: seq<byte>, call: Call) {
    match call
    case Write(_) => false
    case WriteAt(offset, bytes) => |rep| < offset <= USIZE_MAX - |bytes|
    case FillAt(offset, len, _) => |rep| < offset <= USIZE_MAX - len
    case ExpandAt(_, _) => false
    case WithChild(position, _) => |rep| < position <= USIZE_MAX
    case WithFixedChild(position, len, _) => |rep| < position <= USIZE_MAX - len
  }

  /** A run leaves bytes unspecified exactly when one of its calls, after those before it,
      starts past the represented bytes. */
  lemma {:induction false} GapExactly(rep: seq<byte>, calls: seq<Call>)
    ensures ApplyAll(rep, calls).Gap? <==> exists k: nat :: ReachesGap(rep, calls, k)
    decreases |calls|
  {
    hide ApplySteps, Overlay, Expanded;
    if calls != [] {
      var first := Apply(rep, calls[0]);
      if first.Represents? {
        GapExactly(first.rep, calls[1..]);
        if k: nat :| ReachesGap(first.rep, calls[1..], k) {
          var next := k + 1;
          LaterGap(rep, calls, k, next);
        }
        if k: nat :| ReachesGap(rep, calls, k) {
          if k > 0 {
            var before := k - 1;
            LaterGap(rep, calls, before, k);
          }
        }
      } else {
        FirstGap(rep, calls);
      }
    }
  }

  ghost predicate ReachesGap(rep: seq<byte>, calls: seq<Call>, k: nat) {
    && k < |calls| && ApplyAll(rep, calls[..k]).Represents?
    && StartsPast(ApplyAll(rep, calls[..k]).rep, calls[k])
  }

  lemma LaterGap(rep: seq<byte>, calls: seq<Call>, k: nat, next: nat)
    requires calls != [] && Apply(rep, calls[0]).Represents? && next == k + 1
    ensures ReachesGap(rep, calls, next) <==> ReachesGap(Apply(rep, calls[0]).rep, calls[1..], k)
  {
    hide Apply, StartsPast;
    if k < |calls| - 1 {
      assert calls[..next][1..] == calls[1..][..k] && calls[..next][0] == calls[0];
    }
  }

  lemma FirstGap(rep: seq<byte>, calls: seq<Call>)
    requires calls != [] && !Apply(rep, calls[0]).Represents?
    ensures ReachesGap(rep, calls, 0) <==> Apply(rep, calls[0]).Gap?
    ensures forall k: nat :: k > 0 ==> !ReachesGap(rep, calls, k)
  {
    hide ApplySteps, Overlay, Expanded;
    assert calls[..0] == [];
    forall k: nat | k > 0 && k < |calls| ensures !ReachesGap(rep, calls, k) {
      assert calls[..k][0] == calls[0];
    }
  }

  // ----- region isolation -----

  /** Bytes outside `[start, limit)` are as before. */
  ghost predicate Isolated(before: seq<byte>, after: seq<byte>, start: nat, limit: Option<nat>) {
    && |before| <= |after|
    && forall i :: 0 <= i < |before| && (i < start || (limit.Some? && i >= limit.value)) ==> after[i] == before[i]
  }

  lemma IsolatedThen(a: seq<byte>, b: seq<byte>, c: seq<byte>, start: nat, limit: Option<nat>)
    requires Isolated(a, b, start, limit) && Isolated(b, c, start, limit)
    ensures Isolated(a, c, start, limit)
  {
  }

  lemma OverlaidIsolated(before: seq<byte>, after: seq<byte>, offset: nat, patch: seq<byte>, start: nat, limit: Option<nat>)
    requires Overlaid(before, after, offset, patch)
    requires start <= offset && (limit.Some? ==> offset + |patch| <= limit.value)
    ensures Isolated(before, after, start, limit)
  {
  }

  // ----- running -----

  method RunStep(child: ChildWriter, step: Step) returns (r: Outcome)
    requires child.Valid() && child.Fits(child.cursor)
    modifies child, child.writer, child.writer.output
    ensures r.Err? ==> child.Stopped(r.error)
    ensures match EditOf(old(child.Rep()), child.start, old(child.cursor), child.limit, step)
            case NoEdit => r.Err?
            case Edit(offset, patch, cursor) =>
              && (r.Ok? ==> child.Valid() && child.cursor == cursor && Overlaid(old(child.Rep()), child.Rep(), offset, patch))
              && (child.writer.output.policy.Obliging() ==>
                    (r.Ok? <==> offset + |patch| <= child.writer.output.Capacity()))
    ensures child.writer.SameCapacity()
  {
    hide Overlaid, Overlay;
    match step {
      case Emit(bytes) => r := child.Write(bytes);
      case FillTo(position) =>
        if position > USIZE_MAX {
          return Err(LengthOverflow);
        }
        r := child.FillTo(position);
      case Patch(offset, bytes) => r := child.PatchAt(offset, bytes);
      case Expand(offset, bytes) => r := child.ExpandIntegerAt(offset, bytes);
    }
  }

  lemma NextStep(rep: seq<byte>, start: nat, cursor: nat, limit: Option<nat>, steps: seq<Step>, k: nat)
    requires k < |steps| && start <= cursor <= |rep| && Within(cursor, limit) && (limit.None? ==> cursor == |rep|)
    ensures ApplySteps(rep, start, cursor, limit, steps[k..]) ==
              match EditOf(rep, start, cursor, limit, steps[k])
              case NoEdit => Closed
              case Edit(offset, patch, next) =>
                ApplySteps(Overlay(rep, offset, patch), start, next, limit, steps[k + 1..])
  {
    assert steps[k..][0] == steps[k] && steps[k..][1..] == steps[k + 1..];
  }

  lemma SpecIsOverlay(before: seq<byte>, after: seq<byte>, start: nat, cursor: nat, limit: Option<nat>, step: Step)
    requires start <= cursor && Within(cursor, limit) && EditOf(before, start, cursor, limit, step).Edit?
    requires var e := EditOf(before, start, cursor, limit, step); Overlaid(before, after, e.offset, e.patch)
    ensures var e := EditOf(before, start, cursor, limit, step);
            && Isolated(before, after, start, limit)
            && |after| == Max(|before|, e.offset + |e.patch|)
            && (cursor <= |before| ==> after == Overlay(before, e.offset, e.patch))
  {
    var e := EditOf(before, start, cursor, limit, step);
    OverlaidIsolated(before, after, e.offset, e.patch, start, limit);
    if cursor <= |before| {
      OverlaidIsOverlay(before, after, e.offset, e.patch);
    }
  }

  /** A child's steps, up to the first one that fails. */
  method RunSteps(child: ChildWriter, steps: seq<Step>) returns (r: Outcome)
    requires child.Valid() && child.Fits(child.cursor)
    modifies child, child.writer, child.writer.output
    ensures r.Ok? || !r.error.GrowFailed? ==>
              child.Valid() && child.Fits(child.cursor) && Isolated(old(child.Rep()), child.Rep(), child.start, child.limit)
    ensures old(child.cursor <= child.writer.cursor) ==>
              match ApplySteps(old(child.Rep()), child.start, old(child.cursor), child.limit, steps)
              case Closed => r.Err?
              case Region(rep, cursor) =>
                && (r.Ok? ==> child.Rep() == rep && child.cursor == cursor)
                && (child.writer.output.policy.Obliging() ==> (r.Ok? <==> |rep| <= child.writer.output.Capacity()))
    ensures child.writer.SameCapacity()
  {
    hide ApplySteps, Overlaid, EditOf, Isolated, Overlay;
    ghost var linked := child.cursor <= child.writer.cursor;
    ghost var before := child.Rep();
    ghost var whole := if linked then ApplySteps(before, child.start, child.cursor, child.limit, steps) else Closed;
    IsolatedSelf(before, child.start, child.limit);
    for k := 0 to |steps|
      invariant child.Valid() && child.Fits(child.cursor) && child.writer.SameCapacity()
      invariant Isolated(before, child.Rep(), child.start, child.limit)
      invariant linked ==>
                  && child.cursor <= child.writer.cursor
                  && whole == ApplySteps(child.Rep(), child.start, child.cursor, child.limit, steps[k..])
    {
      ghost var was, at := child.Rep(), child.cursor;
      ghost var e := EditOf(was, child.start, at, child.limit, steps[k]);
      if linked {
        NextStep(was, child.start, at, child.limit, steps, k);
      }
      r := RunStep(child, steps[k]);
      if r.Err? {
        IsolatedSelf(was, child.start, child.limit);
        return;
      }
      SpecIsOverlay(was, child.Rep(), child.start, at, child.limit, steps[k]);
      IsolatedThen(before, was, child.Rep(), child.start, child.limit);
    }
    if linked {
      NoSteps(child.Rep(), child.start, child.cursor, child.limit, steps);
    }
    r := Ok(Unit);
  }

  lemma IsolatedSelf(rep: seq<byte>, start: nat, limit: Option<nat>)
    ensures Isolated(rep, rep, start, limit)
  {
  }

  lemma NoSteps(rep: seq<byte>, start: nat, cursor: nat, limit: Option<nat>, steps: seq<Step>)
    requires start <= cursor <= |rep| && Within(cursor, limit) && (limit.None? ==> cursor == |rep|)
    ensures ApplySteps(rep, start, cursor, limit, steps[|steps|..]) == Region(rep, cursor)
  {
  }

  /** Steps of a fresh child, then its finish. */
  method RunChild(child: ChildWriter, steps: seq<Step>) returns (r: Outcome)
    requires child.Valid() && child.Fits(child.cursor)
    modifies child, child.writer, child.writer.output
    ensures r.Ok? || !r.error.GrowFailed? ==>
              child.writer.Valid() && Isolated(old(child.Rep()), child.writer.Rep(), child.start, child.limit)
    ensures r.Ok? && child.limit.Some? ==> child.cursor == child.limit.value
    ensures old(child.cursor <= child.writer.cursor) ==>
              match Finished(ApplySteps(old(child.Rep()), child.start, old(child.cursor), child.limit, steps), child.limit)
              case Refused => r.Err?
              case Represents(rep) =>
                && (r.Ok? ==> child.writer.Rep() == rep)
                && (child.writer.output.policy.Obliging() ==> (r.Ok? <==> |rep| <= child.writer.output.Capacity()))
              case Gap => false
    ensures child.writer.SameCapacity()
  {
    hide ApplySteps, Isolated;
    r := RunSteps(child, steps);
    if r.Ok? {
      r := child.Finish();
    }
  }

  /** What a run that represents `effect` leaves on this writer. */
  twostate predicate Meets(w: Writer, new r: Outcome, effect: Effect)
    reads w, w.output
  {
    && (r.Ok? || !r.error.GrowFailed? ==> w.Valid())
    && match effect
       case Refused => r.Err?
       case Gap => true
       case Represents(rep) =>
         && (r.Ok? ==> w.Rep() == rep)
         && (w.output.policy.Obliging() ==> (r.Ok? <==> |rep| <= w.output.Capacity()))
  }

  method RunCall(w: Writer, call: Call) returns (r: Outcome)
    requires w.Valid()
    modifies w, w.output
    ensures Meets(w, r, Apply(old(w.Rep()), call)) && w.SameCapacity()
  {
    hide Overlaid, ApplySteps, Isolated, Overlay, Expanded, Policy.Obliging;
    ghost var before := w.Rep();
    match call {
      case Write(bytes) => r := w.Write(bytes);
      case WriteAt(offset, bytes) =>
        r := w.WriteAt(offset, bytes);
        if r.Ok? && offset <= |before| { OverlaidIsOverlay(before, w.Rep(), offset, bytes); }
      case FillAt(offset, len, value) =>
        r := w.FillAt(offset, len, value);
        if r.Ok? && offset <= |before| { OverlaidIsOverlay(before, w.Rep(), offset, Repeat(value, len)); }
      case ExpandAt(offset, bytes) => r := w.ExpandIntegerAt(offset, bytes);
      case WithChild(position, steps) =>
        var child := w.ChildAt(position);
        match child {
          case Err(error) => r := Err(error);
          case Ok(c) =>
            assert |before| == position ==> w.Rep() == before;
            r := RunChild(c, steps);
        }
      case WithFixedChild(position, len, steps) =>
        var child := w.FixedChildAt(position, len);
        match child {
          case Err(error) => r := Err(error);
          case Ok(c) => r := RunChild(c, steps);
        }
    }
  }

  lemma NextCall(rep: seq<byte>, calls: seq<Call>, k: nat)
    requires k < |calls|
    ensures ApplyAll(rep, calls[k..]) ==
              match Apply(rep, calls[k])
              case Refused => Refused
              case Gap => Gap
              case Represents(next) => ApplyAll(next, calls[k + 1..])
  {
    assert calls[k..][0] == calls[k] && calls[k..][1..] == calls[k + 1..];
  }

  /** A whole run: what it represents does not depend on the output. On an
      obliging output it succeeds exactly when its final representation fits. */
  method Run(w: Writer, calls: seq<Call>) returns (r: Outcome)
    requires w.Valid()
    modifies w, w.output
    ensures Meets(w, r, ApplyAll(old(w.Rep()), calls)) && w.SameCapacity()
  {
    hide Apply, ApplyAll;
    ghost var whole := ApplyAll(w.Rep(), calls);
    for k := 0 to |calls|
      invariant w.Valid() && w.SameCapacity()
      invariant whole.Gap? || whole == ApplyAll(w.Rep(), calls[k..])
    {
      NextCall(w.Rep(), calls, k);
      r := RunCall(w, calls[k]);
      if r.Err? {
        return;
      }
    }
    NoCalls(w.Rep(), calls);
    r := Ok(Unit);
  }

  lemma NoCalls(rep: seq<byte>, calls: seq<Call>)
    ensures ApplyAll(rep, calls[|calls|..]) == Represents(rep)
  {
  }

  /** Two successful runs of the same calls, on any two outputs and wherever growth
      moved or filled them, represent the same bytes. */
  method RunTwice(a: Writer, b: Writer, calls: seq<Call>) returns (r: Outcome, s: Outcome)
    requires a != b && a.output != b.output && a.Valid() && b.Valid() && a.Rep() == b.Rep()
    requires !ApplyAll(a.Rep(), calls).Gap?
    modifies a, a.output, b, b.output
    ensures r.Ok? && s.Ok? ==> a.Valid() && b.Valid() && a.Rep() == b.Rep()
    ensures (&& a.output.policy.Obliging() && b.output.policy.Obliging()
             && r.Ok? && a.output.Capacity() <= b.output.Capacity()) ==> s.Ok?
  {
    r := Run(a, calls);
    s := Run(b, calls);
  }

  // ----- expansion -----

  /** A reserved byte and the encoding that replaces it. */
  datatype Reservation = Reservation(offset: nat, bytes: seq<byte>)

  /** Reservations inside `rep`, at or after `from`, in increasing order. */
  ghost predicate Reserved(rep: seq<byte>, from: nat, edits: seq<Reservation>)
    decreases |edits|
  {
    edits != [] ==>
      && from <= edits[0].offset < |rep| && edits[0].bytes != []
      && Reserved(rep, edits[0].offset + 1, edits[1..])
  }

  /** How much longer the replacements are than the reserved bytes. */
  function Added(edits: seq<Reservation>): int {
    if edits == [] then 0 else |edits[0].bytes| - 1 + Added(edits[1..])
  }

  lemma {:induction false} AddedSuffix(rep: seq<byte>, from: nat, edits: seq<Reservation>, k: nat)
    requires Reserved(rep, from, edits) && k <= |edits|
    ensures Added(edits[k..]) <= Added(edits)
    decreases |edits|
  {
    if k > 0 {
      AddedSuffix(rep, edits[0].offset + 1, edits[1..], k - 1);
      assert edits[1..][k - 1..] == edits[k..];
    } else {
      assert edits[0..] == edits;
    }
  }

  /** All reserved bytes of `rep[from..]` replaced at once. */
  function Replaced(rep: seq<byte>, from: nat, edits: seq<Reservation>): (after: seq<byte>)
    requires from <= |rep| && Reserved(rep, from, edits)
    ensures |after| == |rep| - from + Added(edits)
    decreases |edits|
  {
    if edits == [] then rep[from..]
    else rep[from..edits[0].offset] + edits[0].bytes + Replaced(rep, edits[0].offset + 1, edits[1..])
  }

  lemma {:induction false} ReservedPrefix(rep: seq<byte>, from: nat, edits: seq<Reservation>, k: nat)
    requires Reserved(rep, from, edits) && k < |edits|
    ensures from <= edits[k].offset < |rep| && edits[k].bytes != []
    ensures Reserved(rep, edits[k].offset + 1, edits[k + 1..])
    decreases k
  {
    if k > 0 {
      ReservedPrefix(rep, edits[0].offset + 1, edits[1..], k - 1);
      assert edits[1..][k..] == edits[k + 1..];
    }
  }

  /** Starting the replacement earlier keeps the bytes in between. */
  lemma ReplacedFrom(rep: seq<byte>, from: nat, later: nat, edits: seq<Reservation>)
    requires from <= later <= |rep| && Reserved(rep, later, edits)
    ensures Reserved(rep, from, edits)
    ensures Replaced(rep, from, edits) == rep[from..later] + Replaced(rep, later, edits)
  {
    if edits == [] {
      assert rep[from..] == rep[from..later] + rep[later..];
    } else {
      Splice(rep, from, later, edits[0].offset, edits[0].bytes, Replaced(rep, edits[0].offset + 1, edits[1..]));
    }
  }

  lemma ReplacedCons(rep: seq<byte>, edit: Reservation, edits: seq<Reservation>)
    requires edit.offset < |rep| && Reserved(rep, edit.offset + 1, edits) && edit.bytes != []
    ensures Reserved(rep, 0, [edit] + edits)
    ensures Replaced(rep, 0, [edit] + edits) == rep[0..edit.offset] + edit.bytes + Replaced(rep, edit.offset + 1, edits)
  {
    assert ([edit] + edits)[1..] == edits;
  }

  lemma NothingReserved(rep: seq<byte>)
    ensures Reserved(rep, 0, []) && Replaced(rep, 0, []) == rep
  {
  }

  lemma Splice(rep: seq<byte>, from: nat, later: nat, offset: nat, bytes: seq<byte>, tail: seq<byte>)
    requires from <= later <= offset <= |rep|
    ensures rep[from..offset] + bytes + tail == rep[from..later] + (rep[later..offset] + bytes + tail)
  {
  }

  lemma ExpandOne(rep: seq<byte>, offset: nat, bytes: seq<byte>, tail: seq<byte>)
    requires offset < |rep|
    ensures Expanded(rep[0..offset + 1] + tail, offset, bytes) == rep[0..offset] + bytes + tail
  {
  }

  /** Expanding one more reserved byte, below all those already expanded. */
  lemma ExpandBelow(rep: seq<byte>, edit: Reservation, edits: seq<Reservation>)
    requires edit.offset < |rep| && Reserved(rep, edit.offset + 1, edits) && edit.bytes != []
    ensures Reserved(rep, 0, edits) && Reserved(rep, 0, [edit] + edits)
    ensures edit.offset < |Replaced(rep, 0, edits)|
    ensures Expanded(Replaced(rep, 0, edits), edit.offset, edit.bytes) == Replaced(rep, 0, [edit] + edits)
  {
    ReplacedFrom(rep, 0, edit.offset + 1, edits);
    ReplacedCons(rep, edit, edits);
    hide Replaced, Reserved, Added, Expanded;
    ExpandOne(rep, edit.offset, edit.bytes, Replaced(rep, edit.offset + 1, edits));
  }

  /** Expands reserved prefixes from the last to the first. The result replaces all of
      them at once, and an obliging output is enough exactly when that result fits. */
  method ExpandAll(w: Writer, edits: seq<Reservation>) returns (r: Outcome)
    requires w.Valid() && Reserved(w.Rep(), 0, edits)
    modifies w, w.output
    ensures r.Ok? ==> w.Valid() && w.Rep() == Replaced(old(w.Rep()), 0, edits)
    ensures w.output.policy.Obliging() ==>
              (r.Ok? <==> |Replaced(old(w.Rep()), 0, edits)| <= Min(w.output.Capacity(), USIZE_MAX))
    ensures w.SameCapacity()
  {
    hide Replaced, Expanded, Added, Reserved;
    ghost var rep := w.Rep();
    var k := |edits|;
    NothingReserved(rep);
    assert edits[k..] == [];
    while k > 0
      invariant 0 <= k <= |edits| && w.Valid() && w.SameCapacity()
      invariant Reserved(rep, 0, edits[k..]) && w.Rep() == Replaced(rep, 0, edits[k..])
    {
      k := k - 1;
      ReservedPrefix(rep, 0, edits, k);
      ExpandBelow(rep, edits[k], edits[k + 1..]);
      assert edits[k..] == [edits[k]] + edits[k + 1..];
      AddedSuffix(rep, 0, edits, k);
      r := w.ExpandIntegerAt(edits[k].offset, edits[k].bytes);
      if r.Err? {
        return;
      }
    }
    assert edits[0..] == edits;
    r := Ok(Unit);
  }
}
