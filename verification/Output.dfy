/** Progressive contiguous output: adapters that expose bytes on request, the writer
    that owns a cursor over them, and restricted child writers. */
module Output {
  import opened Base

  datatype GrowthRequest = GrowthRequest(highWater: nat, minimumLen: nat, suggestedLen: nat)

  datatype OutputError =
    | NeedMoreOutput(request: GrowthRequest, available: nat)
    | LimitReached(request: GrowthRequest, limit: nat)
    | GrowFailed
    | GrowthRefused(request: GrowthRequest, actual: nat)
    | Backwards(position: nat, written: nat)
    | ChildOverflow(end: nat, limit: nat)
    | ChildIncomplete(end: nat, limit: nat)
    | NonProgressItem(index: nat)
    | LengthOverflow

  datatype Unit = Unit
  type Outcome = Result<Unit, OutputError>

  /** What a growth callback does: it keeps the high-water prefix and exposes `tail` after
      it, or fails and leaves any bytes. */
  datatype Response = Expose(tail: seq<byte>) | Fail(left: seq<byte>)

  /** The adapters: current bytes only, a growable target, a growable target up to a
      limit, and caller-provided growth. What a target or callback does may change from one
      call to the next, so it depends on the number of calls made before. A target accepts
      some of the zeroes it is offered. */
  datatype Policy =
    | FixedBytes
    | Growable(accepts: (nat, nat) -> nat)
    | Bounded(limit: usize, accepts: (nat, nat) -> nat)
    | GrowWith(answer: (nat, GrowthRequest) -> Response)
  {
    /** The target accepts everything it is offered; the callback always exposes the
        minimum it is asked for. */
    ghost predicate Obliging() {
      match this
      case FixedBytes => true
      case Growable(accepts) => forall calls: nat, offered: nat :: accepts(calls, offered) >= offered
      case Bounded(_, accepts) => forall calls: nat, offered: nat :: accepts(calls, offered) >= offered
      case GrowWith(answer) =>
        forall calls: nat, request: GrowthRequest :: Suffices(answer(calls, request), request)
    }
  }

  predicate Suffices(response: Response, request: GrowthRequest) {
    response.Expose? && request.highWater + |response.tail| >= request.minimumLen
  }

  /** `0 .. highWater` is kept byte for byte. */
  predicate Preserved(before: seq<byte>, after: seq<byte>, highWater: nat) {
    highWater <= |before| ==> highWater <= |after| && after[..highWater] == before[..highWater]
  }

  function GrowthTarget(current: nat, request: GrowthRequest): (target: nat)
    ensures target >= request.minimumLen
  {
    Max(Max(request.suggestedLen, request.minimumLen), Min(2 * current, USIZE_MAX))
  }

  /** Growth asks for the minimum, for what is suggested and for twice what there is, and
      for no more than the largest of them. */
  lemma GrowthTargetIs(current: usize, request: GrowthRequest)
    requires request.suggestedLen <= USIZE_MAX && request.minimumLen <= USIZE_MAX
    ensures var target, doubled := GrowthTarget(current, request), Min(2 * current, USIZE_MAX);
            && request.minimumLen <= target && request.suggestedLen <= target && doubled <= target <= USIZE_MAX
            && (target == request.minimumLen || target == request.suggestedLen || target == doubled)
  {
  }

  // ----- overwriting part of a represented range -----

  /** `after` is `before` with `patch` at `offset`, extended when it reaches further.
      Bytes between the old end and a later `offset` are unspecified. */
  ghost predicate Overlaid(before: seq<byte>, after: seq<byte>, offset: nat, patch: seq<byte>) {
    && |after| == Max(|before|, offset + |patch|)
    && after[offset..offset + |patch|] == patch
    && forall i :: 0 <= i < |before| && !(offset <= i < offset + |patch|) ==> after[i] == before[i]
  }

  function Overlay(before: seq<byte>, offset: nat, patch: seq<byte>): (after: seq<byte>)
    requires offset <= |before|
    ensures |after| == Max(|before|, offset + |patch|)
  {
    before[..offset] + patch + (if offset + |patch| < |before| then before[offset + |patch|..] else [])
  }

  /** When no gap is left the overlay is the only outcome. */
  lemma OverlaidIsOverlay(before: seq<byte>, after: seq<byte>, offset: nat, patch: seq<byte>)
    requires offset <= |before|
    ensures Overlaid(before, after, offset, patch) <==> after == Overlay(before, offset, patch)
  {
    var o := Overlay(before, offset, patch);
    assert o[offset..offset + |patch|] == patch;
    if Overlaid(before, after, offset, patch) {
      forall i | 0 <= i < |o| ensures after[i] == o[i] {
        if offset <= i < offset + |patch| {
          assert after[i] == after[offset..offset + |patch|][i - offset];
        }
      }
      assert after == o;
    }
  }

  /** Byte by byte: the patch where it lies, the bytes from before everywhere else. */
  lemma OverlayBytes(before: seq<byte>, offset: nat, patch: seq<byte>, i: nat)
    requires offset <= |before| && i < Max(|before|, offset + |patch|)
    ensures Overlay(before, offset, patch)[i] == if offset <= i < offset + |patch| then patch[i - offset] else before[i]
  {
  }

  lemma OverlayAtEnd(before: seq<byte>, patch: seq<byte>)
    ensures Overlay(before, |before|, patch) == before + patch
  {
    assert before[..|before|] == before;
  }

  function Repeat(value: byte, n: nat): (s: seq<byte>)
    ensures |s| == n && forall i :: 0 <= i < n ==> s[i] == value
  {
    seq(n, _ => value)
  }

  // ----- adapters -----

  /** A contiguous target behind one of the adapters. */
  class Output {
    var bytes: seq<byte>
    var calls: nat
    const policy: Policy

    constructor (initial: seq<byte>, adapter: Policy)
      ensures bytes == initial && policy == adapter
    {
      bytes, policy, calls := initial, adapter, 0;
    }

    /** The longest prefix an obliging output exposes. */
    ghost function Capacity(): nat
      reads this
    {
      match policy
      case FixedBytes => |bytes|
      case Growable(_) => USIZE_MAX
      case Bounded(limit, _) => limit
      case GrowWith(_) => USIZE_MAX
    }

    /** Exposes at least `request.minimumLen` bytes or fails. Success keeps the
        high-water prefix; only a failing callback may lose bytes. An obliging output
        succeeds exactly up to its capacity. */
    method Ensure(request: GrowthRequest) returns (r: Outcome)
      modifies this
      ensures r.Ok? ==> request.minimumLen <= |bytes| && Preserved(old(bytes), bytes, request.highWater)
      ensures r.Err? ==>
                if r.error.GrowFailed? then policy.GrowWith? else Preserved(old(bytes), bytes, request.highWater)
      ensures policy.Obliging() && request.highWater <= |old(bytes)| && request.minimumLen <= USIZE_MAX ==>
                (r.Ok? <==> request.minimumLen <= old(Capacity()))
      ensures policy.FixedBytes? ==>
                && bytes == old(bytes)
                && r == if request.minimumLen <= |bytes| then Ok(Unit) else Err(NeedMoreOutput(request, |bytes|))
      ensures policy.Growable? && policy.Obliging() && |old(bytes)| < request.minimumLen ==>
                r == Ok(Unit) && |bytes| == GrowthTarget(|old(bytes)|, request)
      ensures policy.Bounded? && policy.Obliging() && |old(bytes)| < request.minimumLen <= policy.limit ==>
                r == Ok(Unit) && |bytes| == Min(GrowthTarget(|old(bytes)|, request), policy.limit)
      ensures policy.Bounded? && request.minimumLen > policy.limit ==>
                r == Err(LimitReached(request, policy.limit)) && bytes == old(bytes)
      ensures policy.Bounded? ==> |bytes| <= Max(|old(bytes)|, policy.limit)
      ensures policy.GrowWith? && request.minimumLen > |old(bytes)| >= request.highWater ==>
                var response := policy.answer(old(calls), request);
                && (r.Ok? <==> Suffices(response, request))
                && (r.Err? ==> r == Err(if response.Fail? then GrowFailed else GrowthRefused(request, |bytes|)))
                && (r.Ok? ==> bytes == old(bytes)[..request.highWater] + response.tail)
      ensures !policy.FixedBytes? && r.Err? && r.error.GrowthRefused? ==> r == Err(GrowthRefused(request, |bytes|))
      ensures !policy.GrowWith? ==> old(bytes) <= bytes && forall i :: |old(bytes)| <= i < |bytes| ==> bytes[i] == 0
      ensures request.minimumLen <= |old(bytes)| && !policy.Bounded? ==> r == Ok(Unit) && bytes == old(bytes)
    {
      var current := |bytes|;
      match policy {
        case FixedBytes =>
          if current < request.minimumLen {
            return Err(NeedMoreOutput(request, current));
          }
          return Ok(Unit);
        case Growable(accepts) =>
          if current >= request.minimumLen {
            return Ok(Unit);
          }
          Extend(accepts, GrowthTarget(current, request) - current);
        case Bounded(limit, accepts) =>
          if request.minimumLen > limit {
            return Err(LimitReached(request, limit));
          }
          if current >= request.minimumLen {
            return Ok(Unit);
          }
          Extend(accepts, Max(Min(GrowthTarget(current, request), limit) - current, 0));
        case GrowWith(answer) =>
          if current < request.minimumLen {
            var grown := Call(answer, request);
            if !grown {
              return Err(GrowFailed);
            }
          }
      }
      if |bytes| < request.minimumLen {
        return Err(GrowthRefused(request, |bytes|));
      }
      r := Ok(Unit);
    }

    /** `Extend<u8>` with `n` zeroes, of which the target may accept fewer. */
    method Extend(accepts: (nat, nat) -> nat, n: nat)
      modifies this
      ensures bytes == old(bytes) + Zeros(Min(accepts(old(calls), n), n)) && calls == old(calls) + 1
    {
      bytes := bytes + Zeros(Min(accepts(calls, n), n));
      calls := calls + 1;
    }

    /** One call of the growth callback. */
    method Call(answer: (nat, GrowthRequest) -> Response, request: GrowthRequest) returns (grown: bool)
      modifies this
      ensures grown <==> answer(old(calls), request).Expose?
      ensures grown ==> Preserved(old(bytes), bytes, request.highWater)
      ensures grown && request.highWater <= |old(bytes)| ==>
                bytes == old(bytes)[..request.highWater] + answer(old(calls), request).tail
    {
      var response := answer(calls, request);
      calls := calls + 1;
      match response {
        case Expose(tail) =>
          bytes := (if request.highWater <= |bytes| then bytes[..request.highWater] else bytes) + tail;
          grown := true;
        case Fail(left) =>
          bytes := left;
          grown := false;
      }
    }
  }
}
