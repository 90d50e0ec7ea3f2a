/** The stack machine that measures one root: a cursor, a bounded stack of continuations
    and the trace so far. It takes and reports exactly what the reference reading takes
    and leaves. */
module RecursiveMachine {
  import opened Base
  import opened Errors
  import opened Grammar
  import opened RecursiveSteps
  import opened RecursiveMeaning
  import opened RecursiveSignature

  /** How many levels are left of those the caller allowed. */
  datatype DepthBudget = DepthBudget(remaining: nat, limit: nat)

  type RecursiveDepth = d: DepthBudget | d.remaining <= d.limit
    witness DepthBudget(0, 0)

  /** Spends one level on a root; what is left is for its body. */
  function Enter(depth: RecursiveDepth, offset: nat): Result<RecursiveDepth, RecursiveError> {
    if depth.remaining == 0 then Err(DepthExceeded(depth.limit, offset))
    else Ok(DepthBudget(depth.remaining - 1, depth.limit))
  }

  /** An open body: its grammar and where it resumes. */
  datatype Pending = Pending(body: Body, continuation: Continuation)

  ghost predicate PendingFits(stack: seq<Pending>, at: nat) {
    forall k :: 0 <= k < |stack| ==> Fits(stack[k].body, stack[k].continuation, at)
  }

  lemma FitsLater(stack: seq<Pending>, at: nat, later: nat)
    requires PendingFits(stack, at) && at <= later
    ensures PendingFits(stack, later)
  {
  }

  /** Everything the open bodies still have to read, innermost first. */
  ghost function Finish(g: Grammar, stack: seq<Pending>, input: seq<byte>, at: nat, levels: nat, t: Trace): (r: Span)
    requires |stack| <= levels && PendingFits(stack, at)
    ensures r.Span? ==> r.end <= |input|
    decreases |stack|
  {
    if stack == [] then Span(0, t)
    else
      var top := stack[|stack| - 1];
      match ResumeSpan(g, top.body, top.continuation, input, at, levels - |stack|, |stack|, t)
      case NoSpan => NoSpan
      case Span(n, after) => Plus(n, Finish(g, stack[..|stack| - 1], input[n..], at + n, levels, after))
  }

  /** A root at `input`, then everything still open. */
  ghost function RootThenFinish(g: Grammar, stack: seq<Pending>, input: seq<byte>, at: nat, levels: nat, t: Trace): Span
    requires |stack| <= levels && PendingFits(stack, at)
  {
    match ParseRoot(g, input, at, levels - |stack|)
    case NoParse => NoSpan
    case Parsed(tree, n) => Plus(n, Finish(g, stack, input[n..], at + n, levels, RootTrace(tree, |stack|, t)))
  }

  // ----- one lemma per transition -----

  /** A root whose body is read in place leaves the stack as it is. */
  lemma LeafRoot(g: Grammar, stack: seq<Pending>, input: seq<byte>, at: nat, levels: nat, t: Trace, n: nat, after: Trace)
    requires |stack| <= levels && PendingFits(stack, at) && n <= |input|
    requires RootSpan(ParseRoot(g, input, at, levels - |stack|), |stack|, t) == Span(n, after)
    ensures RootThenFinish(g, stack, input, at, levels, t) == Plus(n, Finish(g, stack, input[n..], at + n, levels, after))
  {
    hide ParseRoot, Finish, RootTrace;
  }

  /** The innermost body reads on, then the others. */
  lemma FinishPushed(g: Grammar, stack: seq<Pending>, top: Pending, input: seq<byte>, at: nat, levels: nat, t: Trace)
    requires |stack| < levels && PendingFits(stack, at) && Fits(top.body, top.continuation, at)
    ensures PendingFits(stack + [top], at)
    ensures Finish(g, stack + [top], input, at, levels, t) ==
              match ResumeSpan(g, top.body, top.continuation, input, at, levels - |stack| - 1, |stack| + 1, t)
              case NoSpan => NoSpan
              case Span(n, after) => Plus(n, Finish(g, stack, input[n..], at + n, levels, after))
  {
    hide ResumeSpan, Fits;
    var pushed := stack + [top];
    assert pushed[..|pushed| - 1] == stack && pushed[|pushed| - 1] == top;
  }

  /** A body step to a child pushes its continuation. */
  lemma PushChild(g: Grammar, stack: seq<Pending>, top: Pending, input: seq<byte>, at: nat, levels: nat, t: Trace, advance: nat)
    requires |stack| < levels && PendingFits(stack, at) && Fits(top.body, top.continuation, at) && advance <= |input|
    requires PendingFits(stack + [top], at + advance)
    ensures RootThenFinish(g, stack + [top], input[advance..], at + advance, levels, Deepen(t, |stack| + 1)) ==
              match ChildThenResume(g, top.body, top.continuation, advance, input, at, levels - |stack| - 1, |stack| + 1, t)
              case NoSpan => NoSpan
              case Span(n, after) =>
                if n < advance || n > |input| then NoSpan
                else Plus(n - advance, Finish(g, stack, input[n..], at + n, levels, after))
  {
    hide ParseRoot, ResumeSpan, Finish, RootTrace, Deepen;
    match ParseRoot(g, input[advance..], at + advance, levels - |stack| - 1)
    case NoParse =>
    case Parsed(child, n) =>
      assert input[advance..][n..] == input[advance + n..];
      FitsLater(stack, at, at + advance + n);
      FitsLater([top], at, at + advance + n);
      assert Fits([top][0].body, [top][0].continuation, at + advance + n);
      var below := ChildTrace(child, |stack| + 1, t);
      FinishPushed(g, stack, top, input[advance + n..], at + advance + n, levels, below);
      match ResumeSpan(g, top.body, top.continuation, input[advance + n..], at + advance + n, levels - |stack| - 1, |stack| + 1, below)
      case NoSpan =>
      case Span(m, _) => assert input[advance + n..][m..] == input[advance + n + m..];
  }

  /** The extent of a root is its selector and its body. */
  lemma RootExtent(g: Grammar, body: Body, input: seq<byte>, at: nat, depth: nat)
    requires depth > 0 && |input| >= g.selector.width
    requires var selector := DecodeUnsigned(g.selector.endian, input[..g.selector.width]);
             selector in g.variants && g.variants[selector] == body
    ensures ParseRoot(g, input, at, depth).Extent() ==
              Further(g.selector.width, ParseBody(g, body, input[g.selector.width..], at + g.selector.width, depth - 1).Extent())
  {
  }

  /** What a body of a root with this selector takes and leaves. */
  ghost function EnteredSpan(p: Parsed<BodyTree>, selector: nat, level: nat, t: Trace): Span {
    if p.Parsed? then Span(p.end, RootTrace(Tree(selector, p.value), level, t)) else NoSpan
  }

  lemma RootSpanOf(g: Grammar, body: Body, selector: nat, input: seq<byte>, at: nat, depth: nat, level: nat, t: Trace)
    requires depth > 0 && |input| >= g.selector.width
    requires selector == DecodeUnsigned(g.selector.endian, input[..g.selector.width])
    requires selector in g.variants && g.variants[selector] == body
    ensures RootSpan(ParseRoot(g, input, at, depth), level, t) ==
              Plus(g.selector.width, EnteredSpan(ParseBody(g, body, input[g.selector.width..], at + g.selector.width, depth - 1), selector, level, t))
  {
    hide RootTrace;
  }

  /** A recursive body mixes its selector before its children. */
  lemma EnteredRecursive(g: Grammar, body: Body, selector: nat, input: seq<byte>, at: nat, depth: nat, level: nat, t: Trace)
    requires IsRecursive(body)
    ensures EnteredSpan(ParseBody(g, body, input, at, depth), selector, level, t) ==
              BodySpan(ParseBody(g, body, input, at, depth), level + 1, PassStart(t, selector))
  {
  }

  /** A root whose body starts with a child. `rest` follows the selector. */
  lemma StartChild(g: Grammar, stack: seq<Pending>, top: Pending, input: seq<byte>, at: nat, levels: nat, t: Trace,
                   width: nat, advance: nat, after: Trace)
    requires |stack| < levels && PendingFits(stack, at) && width + advance <= |input|
    requires Fits(top.body, top.continuation, at + width)
    requires RootSpan(ParseRoot(g, input, at, levels - |stack|), |stack|, t) ==
               Plus(width, ChildThenResume(g, top.body, top.continuation, advance, input[width..], at + width, levels - |stack| - 1, |stack| + 1, after))
    ensures PendingFits(stack + [top], at + width + advance)
    ensures RootThenFinish(g, stack, input, at, levels, t) ==
              Plus(width + advance, RootThenFinish(g, stack + [top], input[width + advance..], at + width + advance, levels, Deepen(after, |stack| + 1)))
  {
    hide ParseRoot, ResumeSpan, ChildThenResume, Finish, RootTrace, Deepen;
    FitsLater(stack + [top], at + width, at + width + advance);
    PushChild(g, stack, top, input[width..], at + width, levels, after, advance);
    assert input[width..][advance..] == input[width + advance..];
    ChildThenResumeBound(g, top.body, top.continuation, advance, input[width..], at + width, levels - |stack| - 1, |stack| + 1, after);
    match ChildThenResume(g, top.body, top.continuation, advance, input[width..], at + width, levels - |stack| - 1, |stack| + 1, after)
    case NoSpan =>
    case Span(n, _) => assert input[width..][n..] == input[width + n..];
  }

  lemma ChildThenResumeBound(g: Grammar, body: Body, continuation: Continuation, advance: nat, input: seq<byte>, at: nat, depth: nat,
                             level: nat, t: Trace)
    requires advance <= |input| && IsRecursive(body) && MatchesBody(body, continuation)
    ensures var r := ChildThenResume(g, body, continuation, advance, input, at, depth, level, t);
            r.Span? ==> advance <= r.end <= |input|
  {
    hide ChildTrace;
  }

  /** The innermost body completes. */
  lemma ResumeDone(g: Grammar, stack: seq<Pending>, input: seq<byte>, at: nat, levels: nat, t: Trace, advance: nat)
    requires 0 < |stack| <= levels && PendingFits(stack, at) && advance <= |input|
    requires var top := stack[|stack| - 1];
             ResumeSpan(g, top.body, top.continuation, input, at, levels - |stack|, |stack|, t) == Span(advance, t)
    ensures Finish(g, stack, input, at, levels, t) ==
              Plus(advance, Finish(g, stack[..|stack| - 1], input[advance..], at + advance, levels, t))
  {
    hide ParseRoot, ResumeSpan;
  }

  lemma FitsBelow(stack: seq<Pending>, at: nat)
    requires PendingFits(stack, at) && stack != []
    ensures Fits(stack[|stack| - 1].body, stack[|stack| - 1].continuation, at) && PendingFits(stack[..|stack| - 1], at)
  {
  }

  lemma PendingPushed(stack: seq<Pending>, top: Pending, at: nat, later: nat)
    requires PendingFits(stack, at) && Fits(top.body, top.continuation, at) && at <= later
    ensures PendingFits(stack + [top], later)
  {
  }

  /** The innermost body continues with its next child. */
  lemma ResumeChild(g: Grammar, stack: seq<Pending>, next: Pending, input: seq<byte>, at: nat, levels: nat, t: Trace, advance: nat)
    requires 0 < |stack| <= levels && PendingFits(stack, at) && advance <= |input|
    requires Fits(next.body, next.continuation, at)
    requires var top := stack[|stack| - 1];
             ResumeSpan(g, top.body, top.continuation, input, at, levels - |stack|, |stack|, t) ==
               ChildThenResume(g, next.body, next.continuation, advance, input, at, levels - |stack|, |stack|, t)
    ensures PendingFits(stack[..|stack| - 1] + [next], at + advance)
    ensures Finish(g, stack, input, at, levels, t) ==
              Plus(advance, RootThenFinish(g, stack[..|stack| - 1] + [next], input[advance..], at + advance, levels, Deepen(t, |stack|)))
  {
    hide ParseRoot, ResumeSpan, ChildThenResume, Deepen, RootThenFinish, PendingFits;
    assert Fits(stack[|stack| - 1].body, stack[|stack| - 1].continuation, at) && PendingFits(stack[..|stack| - 1], at) by {
      FitsBelow(stack, at);
    }
    PendingPushed(stack[..|stack| - 1], next, at, at + advance);
    PushChild(g, stack[..|stack| - 1], next, input, at, levels, t, advance);
    ChildThenResumeBound(g, next.body, next.continuation, advance, input, at, levels - |stack|, |stack|, t);
  }

  // ----- the driver -----

  /** What entering a root leads to: it is framed in place, or its body waits for a child. */
  datatype RootStep = Framed(advance: nat, after: Trace) | Opened(advance: nat, pending: Pending, after: Trace)

  /** Reads one selector and starts the body it names. */
  function EnterRoot(g: Grammar, input: seq<byte>, at: nat, t: Trace): Result<RootStep, RecursiveError> {
    var w := g.selector.width;
    if |input| < w then Err(NeedMore(SaturatingAdd(at, |input|), w - |input|))
    else
      var selector := DecodeUnsigned(g.selector.endian, input[..w]);
      if selector !in g.variants then Err(UnknownSelector(at))
      else EnterBody(g.variants[selector], selector, w, input[w..], at + w, t)
  }

  function EnterBody(body: Body, selector: nat, width: nat, input: seq<byte>, at: nat, t: Trace): Result<RootStep, RecursiveError> {
    match body
    case UnitBody => Ok(Framed(width, PassUnit(t, selector)))
    case LeafBody(frame) =>
      (match frame(input, at)
       case None => Err(RecursiveError.Child(at))
       case Some(consumed) =>
         if consumed > |input| then Err(InvalidFrame(at, consumed, |input|))
         else Ok(Framed(width + consumed, PassLeaf(t, selector, consumed))))
    case _ =>
      match RecursiveStart(body, input, at)
      case Err(error) => Err(error)
      case Ok(Done(advance)) => Ok(Framed(width + advance, PassStart(t, selector)))
      case Ok(Child(advance, continuation)) => Ok(Opened(width + advance, Pending(body, continuation), PassStart(t, selector)))
  }

  /** What `RootThenFinish` becomes when a root is entered. */
  ghost predicate EnterAgrees(g: Grammar, step: Result<RootStep, RecursiveError>, stack: seq<Pending>,
                              input: seq<byte>, at: nat, levels: nat, t: Trace)
    requires |stack| < levels && PendingFits(stack, at)
  {
    match step
    case Err(_) => RootThenFinish(g, stack, input, at, levels, t) == NoSpan
    case Ok(Framed(n, after)) =>
      && g.selector.width <= n <= |input|
      && RootThenFinish(g, stack, input, at, levels, t) == Plus(n, Finish(g, stack, input[n..], at + n, levels, after))
    case Ok(Opened(n, top, after)) =>
      && g.selector.width <= n <= |input| && PendingFits(stack + [top], at + n)
      && RootThenFinish(g, stack, input, at, levels, t) ==
           Plus(n, RootThenFinish(g, stack + [top], input[n..], at + n, levels, Deepen(after, |stack| + 1)))
  }

  lemma NoRoot(g: Grammar, stack: seq<Pending>, input: seq<byte>, at: nat, levels: nat, t: Trace)
    requires |stack| <= levels && PendingFits(stack, at)
    requires ParseRoot(g, input, at, levels - |stack|).NoParse?
    ensures RootThenFinish(g, stack, input, at, levels, t) == NoSpan
  {
  }

  /** The step a body makes against what the reference reading gives it. */
  ghost predicate BodyStepAgrees(g: Grammar, body: Body, selector: nat, width: nat, input: seq<byte>, at: nat, depth: nat, level: nat, t: Trace) {
    var span := EnteredSpan(ParseBody(g, body, input, at, depth), selector, level, t);
    match EnterBody(body, selector, width, input, at, t)
    case Err(_) => span == NoSpan
    case Ok(Framed(n, after)) => n >= width && span == Span(n - width, after)
    case Ok(Opened(n, top, after)) =>
      && width <= n <= width + |input| && Fits(top.body, top.continuation, at)
      && span == ChildThenResume(g, top.body, top.continuation, n - width, input, at, depth, level + 1, after)
  }

  lemma BodyStep(g: Grammar, body: Body, selector: nat, width: nat, input: seq<byte>, at: nat, depth: nat, level: nat, t: Trace)
    requires at + |input| <= USIZE_MAX
    ensures BodyStepAgrees(g, body, selector, width, input, at, depth, level, t)
  {
    hide BodyStepAgrees;
    if IsRecursive(body) {
      RecursiveStep(g, body, selector, width, input, at, depth, level, t);
    } else {
      PlainStep(g, body, selector, width, input, at, depth, level, t);
    }
  }

  lemma RecursiveStep(g: Grammar, body: Body, selector: nat, width: nat, input: seq<byte>, at: nat, depth: nat, level: nat, t: Trace)
    requires at + |input| <= USIZE_MAX && IsRecursive(body)
    ensures BodyStepAgrees(g, body, selector, width, input, at, depth, level, t)
  {
    hide ParseBody, RecursiveStart, ChildThenResume, Fits, EnteredSpan, BodySpan, PassStart;
    StartAgrees(g, body, input, at, depth, level + 1, PassStart(t, selector));
    EnteredRecursive(g, body, selector, input, at, depth, level, t);
  }

  /** A unit or a leaf. */
  lemma PlainStep(g: Grammar, body: Body, selector: nat, width: nat, input: seq<byte>, at: nat, depth: nat, level: nat, t: Trace)
    requires !IsRecursive(body)
    ensures BodyStepAgrees(g, body, selector, width, input, at, depth, level, t)
  {
    hide ParseRoot, ParseItems, ParseFields, ParseDemand, PassLeaf, PassUnit, PassStart, BodyTrace, ChildThenResume, Fits, RecursiveStart;
  }

  lemma RootStepAgrees(g: Grammar, body: Body, selector: nat, step: Result<RootStep, RecursiveError>, stack: seq<Pending>,
                       input: seq<byte>, at: nat, levels: nat, t: Trace)
    requires |stack| < levels && PendingFits(stack, at) && g.selector.width <= |input|
    requires step == EnterBody(body, selector, g.selector.width, input[g.selector.width..], at + g.selector.width, t)
    requires BodyStepAgrees(g, body, selector, g.selector.width, input[g.selector.width..], at + g.selector.width, levels - |stack| - 1, |stack|, t)
    requires RootSpan(ParseRoot(g, input, at, levels - |stack|), |stack|, t) ==
               Plus(g.selector.width, EnteredSpan(ParseBody(g, body, input[g.selector.width..], at + g.selector.width, levels - |stack| - 1),
                                                  selector, |stack|, t))
    ensures EnterAgrees(g, step, stack, input, at, levels, t)
  {
    hide EnterBody, ParseRoot, ParseBody, Finish, RootThenFinish, ChildThenResume, Fits, PendingFits, RootTrace, Deepen;
    var w, depth := g.selector.width, levels - |stack| - 1;
    BodyBound(g, body, input[w..], at + w, depth);
    match step
    case Err(_) => NoRoot(g, stack, input, at, levels, t);
    case Ok(Framed(n, after)) => LeafRoot(g, stack, input, at, levels, t, n, after);
    case Ok(Opened(n, top, after)) =>
      StartChild(g, stack, top, input, at, levels, t, w, n - w, after);
  }

  lemma KnownRootAgrees(g: Grammar, body: Body, selector: nat, stack: seq<Pending>, input: seq<byte>, at: nat, levels: nat, t: Trace)
    requires |stack| < levels && PendingFits(stack, at) && at + |input| <= USIZE_MAX && |input| >= g.selector.width
    requires selector == DecodeUnsigned(g.selector.endian, input[..g.selector.width])
    requires selector in g.variants && g.variants[selector] == body
    ensures EnterAgrees(g, EnterBody(body, selector, g.selector.width, input[g.selector.width..], at + g.selector.width, t), stack, input, at, levels, t)
  {
    hide EnterBody, EnterAgrees, ParseRoot, ParseBody, BodyStepAgrees, RootSpan, EnteredSpan, PendingFits;
    var w := g.selector.width;
    RootSpanOf(g, body, selector, input, at, levels - |stack|, |stack|, t);
    BodyStep(g, body, selector, w, input[w..], at + w, levels - |stack| - 1, |stack|, t);
    RootStepAgrees(g, body, selector, EnterBody(body, selector, w, input[w..], at + w, t), stack, input, at, levels, t);
  }

  /** Entering a root agrees with reading it. */
  lemma EnterRootAgrees(g: Grammar, stack: seq<Pending>, input: seq<byte>, at: nat, levels: nat, t: Trace)
    requires |stack| < levels && PendingFits(stack, at) && at + |input| <= USIZE_MAX
    ensures EnterAgrees(g, EnterRoot(g, input, at, t), stack, input, at, levels, t)
  {
    hide EnterBody, RootThenFinish, Finish, ParseBody, PendingFits;
    var w := g.selector.width;
    if |input| >= w && DecodeUnsigned(g.selector.endian, input[..w]) in g.variants {
      var selector := DecodeUnsigned(g.selector.endian, input[..w]);
      KnownRootAgrees(g, g.variants[selector], selector, stack, input, at, levels, t);
    } else {
      NoRoot(g, stack, input, at, levels, t);
    }
  }

  lemma NoDepth(g: Grammar, stack: seq<Pending>, input: seq<byte>, at: nat, levels: nat, t: Trace)
    requires |stack| == levels && PendingFits(stack, at)
    ensures RootThenFinish(g, stack, input, at, levels, t) == NoSpan
  {
  }

  lemma NothingOpen(g: Grammar, input: seq<byte>, at: nat, levels: nat, t: Trace)
    ensures RootThenFinish(g, [], input, at, levels, t) == RootSpan(ParseRoot(g, input, at, levels), 0, t)
    ensures Finish(g, [], input, at, levels, t) == Span(0, t)
  {
    hide ParseRoot, RootTrace;
  }

  lemma BodyBound(g: Grammar, body: Body, input: seq<byte>, at: nat, depth: nat)
    ensures var r := ParseBody(g, body, input, at, depth).Extent(); r.Some? ==> r.value <= |input|
  {
  }

  /** Resuming the innermost body agrees with what was still open. */
  lemma ResumeTopAgrees(g: Grammar, stack: seq<Pending>, input: seq<byte>, at: nat, levels: nat, t: Trace)
    requires 0 < |stack| <= levels && PendingFits(stack, at) && at + |input| <= USIZE_MAX
    ensures var top := stack[|stack| - 1];
            match RecursiveResume(top.body, input, at, top.continuation)
            case Err(_) => Finish(g, stack, input, at, levels, t) == NoSpan
            case Ok(Done(n)) =>
              && n <= |input|
              && Finish(g, stack, input, at, levels, t) ==
                   Plus(n, Finish(g, stack[..|stack| - 1], input[n..], at + n, levels, t))
            case Ok(Child(n, next)) =>
              var resumed := stack[..|stack| - 1] + [Pending(top.body, next)];
              && n <= |input| && PendingFits(resumed, at + n)
              && Finish(g, stack, input, at, levels, t) ==
                   Plus(n, RootThenFinish(g, resumed, input[n..], at + n, levels, Deepen(t, |stack|)))
  {
    hide RecursiveResume, ResumeSpan, ChildThenResume, RootThenFinish, Deepen;
    var top := stack[|stack| - 1];
    ResumeAgrees(g, top.body, top.continuation, input, at, levels - |stack|, |stack|, t);
    match RecursiveResume(top.body, input, at, top.continuation)
    case Err(_) =>
    case Ok(Done(n)) =>
      ResumeDone(g, stack, input, at, levels, t, n);
    case Ok(Child(n, next)) =>
      ResumeChild(g, stack, Pending(top.body, next), input, at, levels, t, n);
  }

  // ----- the invariant of the driver -----

  /** At `cursor` a root is due; `whole` is what the outermost root takes and leaves. */
  ghost predicate AtRoot(g: Grammar, stack: seq<Pending>, input: seq<byte>, at: nat, levels: nat, cursor: nat, t: Trace, whole: Span) {
    && |stack| <= levels && cursor <= |input| && PendingFits(stack, at + cursor)
    && whole == Plus(cursor, RootThenFinish(g, stack, input[cursor..], at + cursor, levels, t))
  }

  /** At `cursor` a root just ended. */
  ghost predicate AtResume(g: Grammar, stack: seq<Pending>, input: seq<byte>, at: nat, levels: nat, cursor: nat, t: Trace, whole: Span) {
    && |stack| <= levels && cursor <= |input| && PendingFits(stack, at + cursor)
    && whole == Plus(cursor, Finish(g, stack, input[cursor..], at + cursor, levels, t))
  }

  lemma EnterMoves(g: Grammar, stack: seq<Pending>, input: seq<byte>, at: nat, levels: nat, cursor: nat, t: Trace, whole: Span)
    requires AtRoot(g, stack, input, at, levels, cursor, t, whole) && |stack| < levels && at + |input| <= USIZE_MAX
    ensures match EnterRoot(g, input[cursor..], at + cursor, t)
            case Err(_) => whole == NoSpan
            case Ok(Framed(n, after)) => n >= g.selector.width && AtResume(g, stack, input, at, levels, cursor + n, after, whole)
            case Ok(Opened(n, top, after)) =>
              n >= g.selector.width && AtRoot(g, stack + [top], input, at, levels, cursor + n, Deepen(after, |stack| + 1), whole)
  {
    hide EnterRoot, Finish, RootThenFinish, Fits, Deepen;
    EnterRootAgrees(g, stack, input[cursor..], at + cursor, levels, t);
    match EnterRoot(g, input[cursor..], at + cursor, t)
    case Err(_) =>
    case Ok(Framed(n, _)) =>
      assert input[cursor..][n..] == input[cursor + n..];
      FitsLater(stack, at + cursor, at + (cursor + n));
    case Ok(Opened(n, _, _)) =>
      assert input[cursor..][n..] == input[cursor + n..];
  }

  lemma ResumeMoves(g: Grammar, stack: seq<Pending>, input: seq<byte>, at: nat, levels: nat, cursor: nat, t: Trace, whole: Span)
    requires AtResume(g, stack, input, at, levels, cursor, t, whole) && |stack| > 0 && at + |input| <= USIZE_MAX
    ensures var top := stack[|stack| - 1];
            IsRecursive(top.body) && MatchesBody(top.body, top.continuation)
            && match RecursiveResume(top.body, input[cursor..], at + cursor, top.continuation)
               case Err(_) => whole == NoSpan
               case Ok(Done(n)) => AtResume(g, stack[..|stack| - 1], input, at, levels, cursor + n, t, whole)
               case Ok(Child(n, next)) =>
                 AtRoot(g, stack[..|stack| - 1] + [Pending(top.body, next)], input, at, levels, cursor + n, Deepen(t, |stack|), whole)
  {
    hide RecursiveResume, Finish, RootThenFinish, Deepen;
    var top := stack[|stack| - 1];
    assert Fits(top.body, top.continuation, at + cursor);
    hide Fits;
    ResumeTopAgrees(g, stack, input[cursor..], at + cursor, levels, t);
    match RecursiveResume(top.body, input[cursor..], at + cursor, top.continuation)
    case Err(_) =>
    case Ok(Done(n)) => assert input[cursor..][n..] == input[cursor + n..];
    case Ok(Child(n, next)) => assert input[cursor..][n..] == input[cursor + n..];
  }

  lemma Begins(g: Grammar, input: seq<byte>, at: nat, levels: nat)
    ensures AtRoot(g, [], input, at, levels, 0, Fresh(g.selector), RootSpan(ParseRoot(g, input, at, levels), 0, Fresh(g.selector)))
  {
    hide RootTrace;
    NothingOpen(g, input, at, levels, Fresh(g.selector));
    assert input[0..] == input;
  }

  lemma Ends(g: Grammar, input: seq<byte>, at: nat, levels: nat, cursor: nat, t: Trace, whole: Span)
    requires AtResume(g, [], input, at, levels, cursor, t, whole)
    ensures whole == Span(cursor, t)
  {
  }

  lemma TooDeep(g: Grammar, stack: seq<Pending>, input: seq<byte>, at: nat, levels: nat, cursor: nat, t: Trace, whole: Span)
    requires AtRoot(g, stack, input, at, levels, cursor, t, whole) && |stack| == levels
    ensures whole == NoSpan
  {
    NoDepth(g, stack, input[cursor..], at + cursor, levels, t);
  }

  /** Measures exactly one root: its extent, its signature and how deep it nests. */
  method Skip(g: Grammar, input: seq<byte>, at: nat, depth: RecursiveDepth) returns (r: Result<Measure, RecursiveError>)
    requires at + |input| <= USIZE_MAX && g.selector.width > 0
    ensures match ParseRoot(g, input, at, depth.remaining)
            case NoParse => r.Err?
            case Parsed(tree, n) => r == Ok(MeasureOf(g.selector, tree, n))
  {
    hide ParseRoot, EnterRoot, RecursiveResume, Fits, AtRoot, AtResume, RootTrace, Deepen;
    ghost var levels := depth.remaining;
    ghost var whole := RootSpan(ParseRoot(g, input, at, levels), 0, Fresh(g.selector));
    Begins(g, input, at, levels);
    var pending := new Pending[depth.limit];
    var stackDepth := 0;
    var cursor := 0;
    var t := Fresh(g.selector);
    ghost var stack: seq<Pending> := [];
    label parse: while true
      invariant stackDepth == |stack| <= levels && cursor <= |input|
      invariant pending[..stackDepth] == stack
      invariant AtRoot(g, stack, input, at, levels, cursor, t, whole)
      decreases |input| - cursor
    {
      if stackDepth >= depth.remaining || stackDepth >= depth.limit {
        TooDeep(g, stack, input, at, levels, cursor, t, whole);
        return Err(DepthExceeded(depth.limit, SaturatingAdd(at, cursor)));
      }
      ghost var entered := cursor;
      EnterMoves(g, stack, input, at, levels, cursor, t, whole);
      match EnterRoot(g, input[cursor..], at + cursor, t) {
        case Err(error) => return Err(error);
        case Ok(Framed(n, after)) =>
          Bounds(g, stack, input, at, levels, cursor + n, after, whole);
          cursor, t := cursor + n, after;
        case Ok(Opened(n, top, after)) =>
          Bounds(g, stack + [top], input, at, levels, cursor + n, Deepen(after, |stack| + 1), whole);
          cursor := cursor + n;
          pending[stackDepth] := top;
          stackDepth := stackDepth + 1;
          t := Deepen(after, stackDepth);
          stack := stack + [top];
          continue parse;
      }
      while true
        invariant stackDepth == |stack| <= levels && entered < cursor <= |input|
        invariant pending[..stackDepth] == stack
        invariant AtResume(g, stack, input, at, levels, cursor, t, whole)
        decreases stackDepth
      {
        if stackDepth == 0 {
          Ends(g, input, at, levels, cursor, t, whole);
          return Ok(Measure(cursor, t.shape, t.nested));
        }
        var top := pending[stackDepth - 1];
        assert top == stack[|stack| - 1];
        ResumeMoves(g, stack, input, at, levels, cursor, t, whole);
        match RecursiveResume(top.body, input[cursor..], at + cursor, top.continuation) {
          case Err(error) => return Err(error);
          case Ok(Done(n)) =>
            stack := stack[..|stack| - 1];
            Bounds(g, stack, input, at, levels, cursor + n, t, whole);
            cursor := cursor + n;
            stackDepth := stackDepth - 1;
          case Ok(Child(n, next)) =>
            stack := stack[..|stack| - 1] + [Pending(top.body, next)];
            Bounds(g, stack, input, at, levels, cursor + n, Deepen(t, |stack|), whole);
            cursor := cursor + n;
            pending[stackDepth - 1] := Pending(top.body, next);
            t := Deepen(t, stackDepth);
            continue parse;
        }
      }
    }
  }

  lemma Bounds(g: Grammar, stack: seq<Pending>, input: seq<byte>, at: nat, levels: nat, cursor: nat, t: Trace, whole: Span)
    requires AtRoot(g, stack, input, at, levels, cursor, t, whole) || AtResume(g, stack, input, at, levels, cursor, t, whole)
    ensures |stack| <= levels && cursor <= |input|
  {
  }
}
