/** Counted runtime arrays: a lazy iterator, a walking extent, a multiplied extent for
    fixed-width items, and the exact-bytes check that must agree with iteration. */
module Arrays {
  import opened Arith
  import opened Base
  import opened Errors

  /** An item schema seen through its framing: `frame` finds a leading representation,
      `frameExact` reads a supplied span as one. */
  datatype ItemSchema<!E> = ItemSchema(
    fixed: Option<nat>,
    leading: bool,
    frame: (seq<byte>, nat) -> Result<nat, E>,
    frameExact: (seq<byte>, nat) -> Result<nat, E>)
  {
    function Frame(input: seq<byte>, at: nat): Result<nat, E> {
      if leading then frame(input, at) else frameExact(input, at)
    }

    /** Input offered to one item: a non-zero fixed width cuts it short. */
    function Offered(available: seq<byte>): seq<byte> {
      if fixed.Some? && fixed.value != 0 && fixed.value <= |available| then available[..fixed.value] else available
    }
  }

  /** What is left of a traversal. */
  datatype Steps<+E> = Ended | Failed(error: ArrayError<E>) | Yield(width: nat, rest: Steps<E>)

  /** The traversal of the items from `index` on, `cursor` bytes into the array. */
  ghost function Traversal<E>(s: ItemSchema<E>, input: seq<byte>, count: nat, offset: nat, index: nat, cursor: nat): Steps<E>
    requires index <= count
    decreases count - index
  {
    if index == count then
      if input == [] then Ended else Failed(Trailing(SaturatingAdd(offset, cursor), |input|))
    else if offset + cursor > USIZE_MAX then Failed(InvalidExtent(index, USIZE_MAX, |input|))
    else
      match s.Frame(s.Offered(input), offset + cursor)
      case Err(source) => Failed(Item(index, source))
      case Ok(n) =>
        if n == 0 then Failed(NonProgress(index, offset + cursor))
        else if n != s.fixed.GetOr(n) || n > |input| then Failed(InvalidExtent(index, n, |input|))
        else Yield(n, Traversal(s, input[n..], count, offset, index + 1, cursor + n))
  }

  /** Every item is good and nothing follows the last one. */
  ghost predicate Clean<E>(steps: Steps<E>) {
    match steps
    case Ended => true
    case Failed(_) => false
    case Yield(_, rest) => Clean(rest)
  }

  /** Total width of the items, or the failure that stops them; bytes after the last
      item are not looked at. */
  ghost function Extent<E>(steps: Steps<E>): (r: Result<nat, ArrayError<E>>)
  {
    match steps
    case Ended => Ok(0)
    case Failed(error) => if error.Trailing? then Ok(0) else Err(error)
    case Yield(width, rest) =>
      match Extent(rest)
      case Err(error) => Err(error)
      case Ok(more) => Ok(width + more)
  }

  /** A traversal yields `n` bytes next exactly when the next item frames so. */
  ghost predicate Yields<E>(s: ItemSchema<E>, input: seq<byte>, at: nat, n: nat) {
    && at <= USIZE_MAX && s.Frame(s.Offered(input), at) == Ok(n)
    && 0 < n <= |input| && n == s.fixed.GetOr(n)
  }

  lemma TraversalYields<E>(s: ItemSchema<E>, input: seq<byte>, count: nat, offset: nat, index: nat, cursor: nat, n: nat)
    requires index < count && Yields(s, input, offset + cursor, n)
    ensures Traversal(s, input, count, offset, index, cursor)
         == Yield(n, Traversal(s, input[n..], count, offset, index + 1, cursor + n))
  {
  }

  lemma TraversalEnds<E>(s: ItemSchema<E>, input: seq<byte>, count: nat, offset: nat, cursor: nat)
    ensures input == [] ==> Traversal(s, input, count, offset, count, cursor) == Ended
    ensures Clean(Traversal(s, input, count, offset, count, cursor)) ==> input == []
    ensures Extent(Traversal(s, input, count, offset, count, cursor)) == Ok(0)
  {
  }

  lemma CleanYields<E>(s: ItemSchema<E>, input: seq<byte>, count: nat, offset: nat, index: nat, cursor: nat)
    requires index < count && Clean(Traversal(s, input, count, offset, index, cursor))
    ensures var steps := Traversal(s, input, count, offset, index, cursor);
            steps.Yield? && Yields(s, input, offset + cursor, steps.width) && Clean(steps.rest)
    ensures var n := Traversal(s, input, count, offset, index, cursor).width;
            Traversal(s, input, count, offset, index, cursor).rest
              == Traversal(s, input[n..], count, offset, index + 1, cursor + n)
  {
  }

  // ----- what a traversal means -----

  /** What reading one item from `bytes` at `at` gives: a leading schema looks for a
      representation in front of them, another takes all of them for one. */
  ghost predicate Reads<E>(s: ItemSchema<E>, bytes: seq<byte>, at: nat, result: Result<nat, E>) {
    && (s.leading ==> s.frame(bytes, at) == result)
    && (!s.leading ==> s.frameExact(bytes, at) == result)
  }

  /** The same for the next item of an array: a fixed width within `rest` ends its bytes. */
  ghost predicate ReadsNext<E>(s: ItemSchema<E>, rest: seq<byte>, at: nat, result: Result<nat, E>) {
    match s.fixed
    case None => Reads(s, rest, at, result)
    case Some(width) => Reads(s, if 0 < width <= |rest| then rest[..width] else rest, at, result)
  }

  /** `widths` are those of the first items of `rest`, which starts at `at`: each item is read
      where the one before it ends, is not empty, lies in `rest` and has the fixed width. */
  ghost predicate Tiles<E>(s: ItemSchema<E>, rest: seq<byte>, at: nat, widths: seq<nat>)
    decreases |widths|
  {
    widths != [] ==>
      && at <= USIZE_MAX && 0 < widths[0] <= |rest| && (s.fixed.Some? ==> widths[0] == s.fixed.value)
      && ReadsNext(s, rest, at, Ok(widths[0]))
      && Tiles(s, rest[widths[0]..], at + widths[0], widths[1..])
  }

  function Total(widths: seq<nat>): nat {
    if widths == [] then 0 else widths[0] + Total(widths[1..])
  }

  /** `count` items, `extent` bytes in all. */
  ghost predicate TilesTo<E>(s: ItemSchema<E>, rest: seq<byte>, at: nat, count: nat, extent: nat) {
    exists widths :: |widths| == count && Total(widths) == extent && Tiles(s, rest, at, widths)
  }

  /** What is wrong with the item at the front of `rest`. */
  ghost predicate Refuses<E>(s: ItemSchema<E>, rest: seq<byte>, at: nat, index: nat, error: ArrayError<E>) {
    match error
    case Item(i, source) => i == index && at <= USIZE_MAX && ReadsNext(s, rest, at, Err(source))
    case NonProgress(i, position) => i == index && position == at <= USIZE_MAX && ReadsNext(s, rest, at, Ok(0))
    case InvalidExtent(i, consumed, available) =>
      && i == index && available == |rest|
      && if at > USIZE_MAX then consumed == USIZE_MAX
         else && consumed > 0 && ReadsNext(s, rest, at, Ok(consumed))
              && (consumed > |rest| || (s.fixed.Some? && consumed != s.fixed.value))
    case _ => false
  }

  /** Fewer than `count` good items lie in front of one that is refused with `error`. */
  ghost predicate StopsWith<E>(s: ItemSchema<E>, rest: seq<byte>, at: nat, index: nat, count: nat, error: ArrayError<E>) {
    exists widths :: StopsAfter(s, rest, at, index, count, error, widths)
  }

  ghost predicate StopsAfter<E>(s: ItemSchema<E>, rest: seq<byte>, at: nat, index: nat, count: nat, error: ArrayError<E>, widths: seq<nat>) {
    && |widths| < count && Total(widths) <= |rest| && Tiles(s, rest, at, widths)
    && Refuses(s, rest[Total(widths)..], at + Total(widths), index + |widths|, error)
  }

  lemma FrameReads<E>(s: ItemSchema<E>, rest: seq<byte>, at: nat, result: Result<nat, E>)
    ensures ReadsNext(s, rest, at, result) <==> s.Frame(s.Offered(rest), at) == result
  {
  }

  lemma TilesCons<E>(s: ItemSchema<E>, rest: seq<byte>, at: nat, count: nat, extent: nat, n: nat)
    requires count > 0 && Yields(s, rest, at, n)
    ensures TilesTo(s, rest, at, count, extent) <==> n <= extent && TilesTo(s, rest[n..], at + n, count - 1, extent - n)
  {
    FrameReads(s, rest, at, Ok(n));
    hide ReadsNext;
    if TilesTo(s, rest, at, count, extent) {
      var widths :| |widths| == count && Total(widths) == extent && Tiles(s, rest, at, widths);
      FrameReads(s, rest, at, Ok(widths[0]));
      assert |widths[1..]| == count - 1;
    }
    if n <= extent && TilesTo(s, rest[n..], at + n, count - 1, extent - n) {
      var widths :| |widths| == count - 1 && Total(widths) == extent - n && Tiles(s, rest[n..], at + n, widths);
      var all := [n] + widths;
      assert all[1..] == widths;
      assert |all| == count && Total(all) == extent && Tiles(s, rest, at, all);
    }
  }

  lemma StopsCons<E>(s: ItemSchema<E>, rest: seq<byte>, at: nat, index: nat, count: nat, error: ArrayError<E>, n: nat)
    requires count > 0 && Yields(s, rest, at, n) && StopsWith(s, rest[n..], at + n, index + 1, count - 1, error)
    ensures StopsWith(s, rest, at, index, count, error)
  {
    FrameReads(s, rest, at, Ok(n));
    hide ReadsNext, Refuses;
    var widths :| StopsAfter(s, rest[n..], at + n, index + 1, count - 1, error, widths);
    var all := [n] + widths;
    assert all[1..] == widths;
    assert rest[n..][Total(widths)..] == rest[Total(all)..];
    assert StopsAfter(s, rest, at, index, count, error, all);
  }

  /** A traversal finds the items: its extent is `n` exactly when that many items, `n` bytes
      in all, lie in front of the input, and otherwise it names the first one that does not. */
  lemma {:induction false} TraversalIs<E>(s: ItemSchema<E>, input: seq<byte>, count: nat, offset: nat, index: nat, cursor: nat, n: nat)
    requires index <= count
    ensures var extent := Extent(Traversal(s, input, count, offset, index, cursor));
            && (extent == Ok(n) <==> TilesTo(s, input, offset + cursor, count - index, n))
            && (extent.Err? ==> StopsWith(s, input, offset + cursor, index, count - index, extent.error))
    decreases count - index
  {
    hide TilesTo, StopsWith, Traversal, Reads, ReadsNext;
    if index == count {
      TraversalEnds(s, input, count, offset, cursor);
      TilesNone(s, input, offset + cursor, n);
    } else {
      var at := offset + cursor;
      var steps := Traversal(s, input, count, offset, index, cursor);
      if steps.Yield? {
        var width := YieldedWidth(s, input, count, offset, index, cursor);
        TraversalIs(s, input[width..], count, offset, index + 1, cursor + width, if width <= n then n - width else 0);
        TilesCons(s, input, at, count - index, n, width);
        if Extent(steps.rest).Err? {
          StopsCons(s, input, at, index, count - index, Extent(steps.rest).error, width);
        }
      } else {
        TiledYields(s, input, count, offset, index, cursor, n);
        StoppedHere(s, input, count, offset, index, cursor);
      }
    }
  }

  lemma TilesNone<E>(s: ItemSchema<E>, rest: seq<byte>, at: nat, extent: nat)
    ensures TilesTo(s, rest, at, 0, extent) <==> extent == 0
  {
    assert Total([]) == 0 && Tiles(s, rest, at, []);
  }

  lemma YieldedWidth<E>(s: ItemSchema<E>, input: seq<byte>, count: nat, offset: nat, index: nat, cursor: nat) returns (n: nat)
    requires index < count && Traversal(s, input, count, offset, index, cursor).Yield?
    ensures Yields(s, input, offset + cursor, n)
    ensures Traversal(s, input, count, offset, index, cursor)
         == Yield(n, Traversal(s, input[n..], count, offset, index + 1, cursor + n))
  {
    n := Traversal(s, input, count, offset, index, cursor).width;
  }

  lemma TiledYields<E>(s: ItemSchema<E>, input: seq<byte>, count: nat, offset: nat, index: nat, cursor: nat, extent: nat)
    requires index < count
    ensures TilesTo(s, input, offset + cursor, count - index, extent) ==> Traversal(s, input, count, offset, index, cursor).Yield?
  {
    hide ReadsNext;
    if TilesTo(s, input, offset + cursor, count - index, extent) {
      var widths :| |widths| == count - index && Total(widths) == extent && Tiles(s, input, offset + cursor, widths);
      FrameReads(s, input, offset + cursor, Ok(widths[0]));
      TraversalYields(s, input, count, offset, index, cursor, widths[0]);
    }
  }

  lemma StoppedHere<E>(s: ItemSchema<E>, input: seq<byte>, count: nat, offset: nat, index: nat, cursor: nat)
    requires index < count && !Traversal(s, input, count, offset, index, cursor).Yield?
    ensures Traversal(s, input, count, offset, index, cursor).Failed?
    ensures var error := Traversal(s, input, count, offset, index, cursor).error;
            !error.Trailing? && StopsWith(s, input, offset + cursor, index, count - index, error)
  {
    var at := offset + cursor;
    var error := Traversal(s, input, count, offset, index, cursor).error;
    FrameReads(s, input, at, s.Frame(s.Offered(input), at));
    assert input[Total([])..] == input;
    hide ReadsNext;
    assert StopsAfter(s, input, at, index, count - index, error, []);
  }

  /** It is clean exactly when the items cover the input. */
  lemma CleanIs<E>(s: ItemSchema<E>, input: seq<byte>, count: nat, offset: nat)
    ensures Clean(Traversal(s, input, count, offset, 0, 0)) <==> TilesTo(s, input, offset, count, |input|)
  {
    hide Traversal, TilesTo;
    TraversalIs(s, input, count, offset, 0, 0, |input|);
    CleanExtent(s, input, count, offset, 0, 0);
  }

  /** The failure a traversal ends with. */
  ghost function Failure<E>(steps: Steps<E>): Option<ArrayError<E>> {
    match steps
    case Ended => None
    case Failed(error) => Some(error)
    case Yield(_, rest) => Failure(rest)
  }

  /** Besides a bad item only bytes after the last one end a traversal with a failure, which
      gives their position and number. */
  lemma {:induction false} FailureIs<E>(s: ItemSchema<E>, input: seq<byte>, count: nat, offset: nat, index: nat, cursor: nat)
    requires index <= count
    ensures Extent(Traversal(s, input, count, offset, index, cursor)).Ok? ==>
              Extent(Traversal(s, input, count, offset, index, cursor)).value <= |input|
    ensures var steps := Traversal(s, input, count, offset, index, cursor);
            Failure(steps) ==
              match Extent(steps)
              case Err(error) => Some(error)
              case Ok(n) =>
                if n == |input| then None else Some(Trailing(Min(offset + cursor + n, USIZE_MAX), |input| - n))
    decreases count - index
  {
    hide Traversal, Yields;
    CleanExtent(s, input, count, offset, index, cursor);
    if index == count {
      LastFailure(s, input, count, offset, cursor);
    } else if Traversal(s, input, count, offset, index, cursor).Yield? {
      var n := YieldedWidth(s, input, count, offset, index, cursor);
      YieldsInside(s, input, offset + cursor, n);
      FailureIs(s, input[n..], count, offset, index + 1, cursor + n);
    } else {
      StoppedHere(s, input, count, offset, index, cursor);
    }
  }

  lemma YieldsInside<E>(s: ItemSchema<E>, input: seq<byte>, at: nat, n: nat)
    requires Yields(s, input, at, n)
    ensures 0 < n <= |input|
  {
  }

  lemma LastFailure<E>(s: ItemSchema<E>, input: seq<byte>, count: nat, offset: nat, cursor: nat)
    ensures Failure(Traversal(s, input, count, offset, count, cursor)) ==
              if input == [] then None else Some(Trailing(Min(offset + cursor, USIZE_MAX), |input|))
    ensures Extent(Traversal(s, input, count, offset, count, cursor)) == Ok(0)
  {
  }

  // ----- iteration -----

  class ArrayIter<!E> {
    const schema: ItemSchema<E>
    const count: nat
    const offset: nat
    var input: seq<byte>
    var index: nat
    var cursor: nat
    var failed: bool

    ghost predicate Valid()
      reads this
    {
      index <= count && cursor + |input| <= USIZE_MAX
    }

    ghost function Remaining(): Steps<E>
      requires Valid()
      reads this
    {
      if failed then Ended else Traversal(schema, input, count, offset, index, cursor)
    }

    constructor (s: ItemSchema<E>, bytes: seq<byte>, n: nat, at: nat)
      requires |bytes| <= USIZE_MAX
      ensures schema == s && count == n && offset == at
      ensures Valid() && Remaining() == Traversal(s, bytes, n, at, 0, 0)
    {
      schema, count, offset := s, n, at;
      input, index, cursor, failed := bytes, 0, 0, false;
    }

    /** The next item, or the single failure, after which there is nothing. */
    method Next() returns (r: Option<Result<seq<byte>, ArrayError<E>>>)
      requires Valid()
      modifies this
      ensures Valid()
      ensures match old(Remaining())
              case Ended => r == None && Remaining() == Ended
              case Failed(error) => r == Some(Err(error)) && Remaining() == Ended
              case Yield(n, rest) =>
                && n <= |old(input)| && r == Some(Ok(old(input)[..n])) && input == old(input)[n..]
                && Remaining() == rest
    {
      if failed {
        return None;
      }
      if index == count {
        if input != [] {
          failed := true;
          return Some(Err(Trailing(SaturatingAdd(offset, cursor), |input|)));
        }
        return None;
      }
      var available := input;
      if offset + cursor > USIZE_MAX {
        failed := true;
        return Some(Err(InvalidExtent(index, USIZE_MAX, |available|)));
      }
      var absolute := offset + cursor;
      match schema.Frame(schema.Offered(available), absolute) {
        case Err(source) =>
          failed := true;
          r := Some(Err(Item(index, source)));
        case Ok(consumed) =>
          if consumed == 0 {
            failed := true;
            return Some(Err(NonProgress(index, absolute)));
          }
          if consumed != schema.fixed.GetOr(consumed) || consumed > |available| {
            failed := true;
            return Some(Err(InvalidExtent(index, consumed, |available|)));
          }
          input := available[consumed..];
          cursor := cursor + consumed;
          index := index + 1;
          r := Some(Ok(available[..consumed]));
      }
    }
  }

  // ----- extents -----

  /** The walking extent of `frame_array_items`: the whole suffix is offered to each item. */
  ghost function Walk<E>(s: ItemSchema<E>, input: seq<byte>, count: nat, offset: nat, index: nat, cursor: nat): (r: Result<nat, ArrayError<E>>)
    requires index <= count
    ensures r.Ok? ==> r.value <= |input|
    decreases count - index
  {
    if index == count then Ok(0)
    else if offset + cursor > USIZE_MAX then Err(InvalidExtent(index, USIZE_MAX, |input|))
    else
      match s.Frame(input, offset + cursor)
      case Err(source) => Err(Item(index, source))
      case Ok(n) =>
        if n == 0 then Err(NonProgress(index, offset + cursor))
        else if n > |input| then Err(InvalidExtent(index, n, |input|))
        else
          match Walk(s, input[n..], count, offset, index + 1, cursor + n)
          case Err(error) => Err(error)
          case Ok(more) => Ok(n + more)
  }

  /** The walk tiles the input as the iterator does over items of no fixed width, or stops
      at the same item for the same reason. */
  lemma {:induction false} WalkIsTraversal<E>(s: ItemSchema<E>, input: seq<byte>, count: nat, offset: nat, index: nat, cursor: nat)
    requires index <= count
    ensures Walk(s, input, count, offset, index, cursor) == Extent(Traversal(s.(fixed := None), input, count, offset, index, cursor))
    ensures s.fixed.None? ==> s.(fixed := None) == s
    decreases count - index
  {
    hide Walk;
    if index == count {
      WalkNone(s, input, count, offset, cursor);
    } else {
      WalkOne(s, input, count, offset, index, cursor);
      if offset + cursor <= USIZE_MAX && s.Frame(input, offset + cursor).Ok? {
        var n := s.Frame(input, offset + cursor).value;
        if 0 < n <= |input| {
          WalkIsTraversal(s, input[n..], count, offset, index + 1, cursor + n);
        }
      }
    }
  }

  /** A traversal is clean exactly when its items cover the input. */
  lemma {:induction false} CleanExtent<E>(s: ItemSchema<E>, input: seq<byte>, count: nat, offset: nat, index: nat, cursor: nat)
    requires index <= count
    ensures var steps := Traversal(s, input, count, offset, index, cursor);
            Clean(steps) <==> Extent(steps) == Ok(|input|)
    ensures Extent(Traversal(s, input, count, offset, index, cursor)).Ok? ==>
              Extent(Traversal(s, input, count, offset, index, cursor)).value <= |input|
    decreases count - index
  {
    if index < count && offset + cursor <= USIZE_MAX {
      match s.Frame(s.Offered(input), offset + cursor)
      case Err(_) =>
      case Ok(n) =>
        if 0 < n <= |input| && n == s.fixed.GetOr(n) {
          CleanExtent(s, input[n..], count, offset, index + 1, cursor + n);
        }
    }
  }

  /** What declaring a fixed width promises: a representation has that width. */
  ghost predicate FixedWidth<E>(s: ItemSchema<E>, width: nat) {
    && s.fixed == Some(width)
    && forall input: seq<byte>, at: nat :: width <= |input| && s.Frame(input, at).Ok? ==> s.Frame(input, at).value == width
  }

  /** An item of the fixed width, followed by items that iterate cleanly. */
  ghost predicate CleanAfter<E>(s: ItemSchema<E>, width: nat, item: seq<byte>, rest: seq<byte>, at: nat, count: nat) {
    |item| == width && at <= USIZE_MAX && Clean(Traversal(s, rest, count, at + width, 0, 0))
  }

  ghost predicate SameOutcome<E>(s: ItemSchema<E>, item: seq<byte>, rest: seq<byte>, at: nat) {
    s.Frame(item + rest, at).Ok? <==> s.Frame(item, at).Ok?
  }

  /** Framing an item cut to its width and framing it before good items succeed alike. */
  ghost predicate SuffixBlind<E>(s: ItemSchema<E>, width: nat) {
    forall item: seq<byte>, rest: seq<byte>, at: nat, count: nat ::
      CleanAfter(s, width, item, rest, at, count) ==> SameOutcome(s, item, rest, at)
  }

  /** Good items of fixed width `w` number `|input| / w`. */
  lemma {:induction false} CleanFixed<E>(s: ItemSchema<E>, width: nat, input: seq<byte>, count: nat, offset: nat, index: nat, cursor: nat)
    requires index <= count && s.fixed == Some(width)
    requires Clean(Traversal(s, input, count, offset, index, cursor))
    ensures |input| == Times(count - index, width) && (index < count ==> width > 0)
    decreases count - index
  {
    if index == count {
      TimesZero(width);
    } else {
      CleanFixed(s, width, input[width..], count, offset, index + 1, cursor + width);
      TimesStep(count - index - 1, width);
    }
  }

  lemma TimesZero(w: nat)
    ensures Times(0, w) == 0
  {
  }

  lemma TimesStep(n: nat, w: nat)
    ensures Times(n + 1, w) == Times(n, w) + w
  {
  }

  /** How the rest of an array reads depends on the items left and the position alone. */
  lemma {:induction false} CleanShift<E>(s: ItemSchema<E>, input: seq<byte>, left: nat, offset: nat, index: nat, cursor: nat)
    ensures Clean(Traversal(s, input, index + left, offset, index, cursor)) <==> Clean(Traversal(s, input, left, offset + cursor, 0, 0))
    decreases left
  {
    if left > 0 && offset + cursor <= USIZE_MAX {
      match s.Frame(s.Offered(input), offset + cursor)
      case Err(_) =>
      case Ok(n) =>
        if 0 < n <= |input| && n == s.fixed.GetOr(n) {
          CleanShift(s, input[n..], left - 1, offset, index + 1, cursor + n);
          CleanShift(s, input[n..], left - 1, offset + cursor, 1, n);
        }
    }
  }

  lemma {:induction false} WalkShift<E>(s: ItemSchema<E>, input: seq<byte>, left: nat, offset: nat, index: nat, cursor: nat)
    ensures AlikeWalks(Walk(s, input, index + left, offset, index, cursor), Walk(s, input, left, offset + cursor, 0, 0))
    decreases left
  {
    hide Walk;
    if left == 0 {
      WalkNone(s, input, index, offset, cursor);
      WalkNone(s, input, 0, offset + cursor, 0);
    } else {
      WalkOne(s, input, index + left, offset, index, cursor);
      WalkOne(s, input, left, offset + cursor, 0, 0);
      if offset + cursor <= USIZE_MAX && s.Frame(input, offset + cursor).Ok? {
        var n := s.Frame(input, offset + cursor).value;
        if 0 < n <= |input| {
          WalkShift(s, input[n..], left - 1, offset, index + 1, cursor + n);
          WalkShift(s, input[n..], left - 1, offset + cursor, 1, n);
          assert offset + (cursor + n) == offset + cursor + n;
        }
      }
    }
  }

  /** Both succeed with one extent, or both fail. */
  ghost predicate AlikeWalks<E>(a: Result<nat, ArrayError<E>>, b: Result<nat, ArrayError<E>>) {
    (a.Ok? <==> b.Ok?) && (a.Ok? ==> a == b)
  }

  ghost predicate WalkAgrees<E>(walked: Result<nat, ArrayError<E>>, steps: Steps<E>, len: nat) {
    && (walked.Ok? <==> Clean(steps))
    && (walked.Ok? ==> walked.value == len)
  }

  /** The walk over `count` items of the fixed width against iteration. */
  ghost predicate Agrees<E>(s: ItemSchema<E>, input: seq<byte>, count: nat, offset: nat) {
    WalkAgrees(Walk(s, input, count, offset, 0, 0), Traversal(s, input, count, offset, 0, 0), |input|)
  }

  /** One more item in front. */
  lemma AgreesFirst<E>(s: ItemSchema<E>, width: nat, item: seq<byte>, rest: seq<byte>, count: nat, at: nat)
    requires FixedWidth(s, width) && |item| == width > 0 && Agrees(s, rest, count, at + width)
    ensures Agrees(s, item + rest, count + 1, at) <==>
              (CleanAfter(s, width, item, rest, at, count) ==> SameOutcome(s, item, rest, at))
  {
    var input := item + rest;
    assert input[..width] == item && input[width..] == rest && s.Offered(input) == item;
    CleanShift(s, rest, count, at, 1, width);
    WalkShift(s, rest, count, at, 1, width);
    FirstWalked(s, width, input, count, at);
    FirstYielded(s, width, input, count, at);
  }

  lemma FirstWalked<E>(s: ItemSchema<E>, width: nat, input: seq<byte>, count: nat, at: nat)
    requires FixedWidth(s, width) && 0 < width <= |input|
    ensures Walk(s, input, count + 1, at, 0, 0).Ok? <==>
              at <= USIZE_MAX && s.Frame(input, at).Ok? && Walk(s, input[width..], 1 + count, at, 1, width).Ok?
    ensures Walk(s, input, count + 1, at, 0, 0).Ok? ==>
              Walk(s, input, count + 1, at, 0, 0).value == width + Walk(s, input[width..], 1 + count, at, 1, width).value
  {
  }

  lemma FirstYielded<E>(s: ItemSchema<E>, width: nat, input: seq<byte>, count: nat, at: nat)
    requires FixedWidth(s, width) && 0 < width <= |input|
    ensures Clean(Traversal(s, input, count + 1, at, 0, 0)) <==>
              at <= USIZE_MAX && s.Frame(input[..width], at).Ok? && Clean(Traversal(s, input[width..], 1 + count, at, 1, width))
  {
  }

  /** With items that succeed cut or not, the walk is clean exactly when iteration is. */
  lemma {:induction false} WalkFixed<E>(s: ItemSchema<E>, width: nat, input: seq<byte>, count: nat, offset: nat)
    requires FixedWidth(s, width) && SuffixBlind(s, width) && width > 0 && |input| == Times(count, width)
    ensures Agrees(s, input, count, offset)
    decreases count
  {
    hide FixedWidth, SameOutcome, CleanAfter;
    if count == 0 {
      TimesZero(width);
    } else {
      hide Agrees;
      TimesStep(count - 1, width);
      var item, rest := input[..width], input[width..];
      assert item + rest == input;
      WalkFixed(s, width, rest, count - 1, offset + width);
      AgreesFirst(s, width, item, rest, count - 1, offset);
    }
  }

  /** The walk and iteration agree on every array of fixed-width items. */
  ghost predicate AlwaysAgree<E>(s: ItemSchema<E>, width: nat) {
    forall input: seq<byte>, count: nat, offset: nat :: |input| == Times(count, width) ==> Agrees(s, input, count, offset)
  }

  /** Exactly the schemas on which they always agree. */
  lemma WalkFixedExactly<E>(s: ItemSchema<E>, width: nat)
    requires FixedWidth(s, width) && width > 0
    ensures AlwaysAgree(s, width) <==> SuffixBlind(s, width)
  {
    hide FixedWidth, Agrees, SameOutcome, Times;
    if SuffixBlind(s, width) {
      forall input: seq<byte>, count: nat, offset: nat | |input| == Times(count, width)
        ensures Agrees(s, input, count, offset)
      {
        WalkFixed(s, width, input, count, offset);
      }
    }
    if AlwaysAgree(s, width) {
      forall item: seq<byte>, rest: seq<byte>, at: nat, count: nat | CleanAfter(s, width, item, rest, at, count)
        ensures SameOutcome(s, item, rest, at)
      {
        FixedLength(s, width, rest, count, at + width);
        TimesStep(count, width);
        assert Agrees(s, rest, count, at + width) && Agrees(s, item + rest, count + 1, at);
        AgreesFirst(s, width, item, rest, count, at);
      }
    }
  }

  lemma FixedLength<E>(s: ItemSchema<E>, width: nat, input: seq<byte>, count: nat, offset: nat)
    requires FixedWidth(s, width) && Clean(Traversal(s, input, count, offset, 0, 0))
    ensures |input| == Times(count, width)
  {
    CleanFixed(s, width, input, count, offset, 0, 0);
  }

  /** Walks the items, offering each the whole suffix. */
  method FrameArrayItems<E>(s: ItemSchema<E>, input: seq<byte>, count: nat, offset: nat)
    returns (r: Result<nat, ArrayError<E>>)
    requires |input| <= USIZE_MAX
    ensures r == Walk(s, input, count, offset, 0, 0)
  {
    hide Walk;
    ghost var whole := Walk(s, input, count, offset, 0, 0);
    var cursor := 0;
    assert input[0..] == input;
    for index := 0 to count
      invariant cursor <= |input|
      invariant whole == After(cursor, Walk(s, input[cursor..], count, offset, index, cursor))
    {
      var available := input[cursor..];
      WalkOne(s, available, count, offset, index, cursor);
      if offset + cursor > USIZE_MAX {
        return Err(InvalidExtent(index, USIZE_MAX, |available|));
      }
      match s.Frame(available, offset + cursor) {
        case Err(source) => return Err(Item(index, source));
        case Ok(consumed) =>
          if consumed == 0 {
            return Err(NonProgress(index, offset + cursor));
          }
          if consumed > |available| {
            return Err(InvalidExtent(index, consumed, |available|));
          }
          assert available[consumed..] == input[cursor + consumed..];
          cursor := cursor + consumed;
      }
    }
    WalkNone(s, input[cursor..], count, offset, cursor);
    r := Ok(cursor);
  }

  lemma WalkNone<E>(s: ItemSchema<E>, input: seq<byte>, count: nat, offset: nat, cursor: nat)
    ensures Walk(s, input, count, offset, count, cursor) == Ok(0)
  {
  }

  lemma WalkOne<E>(s: ItemSchema<E>, input: seq<byte>, count: nat, offset: nat, index: nat, cursor: nat)
    requires index < count
    ensures Walk(s, input, count, offset, index, cursor) ==
              if offset + cursor > USIZE_MAX then Err(InvalidExtent(index, USIZE_MAX, |input|))
              else
                match s.Frame(input, offset + cursor)
                case Err(source) => Err(Item(index, source))
                case Ok(n) =>
                  if n == 0 then Err(NonProgress(index, offset + cursor))
                  else if n > |input| then Err(InvalidExtent(index, n, |input|))
                  else After(n, Walk(s, input[n..], count, offset, index + 1, cursor + n))
  {
  }

  ghost function After<E>(cursor: nat, rest: Result<nat, ArrayError<E>>): Result<nat, ArrayError<E>> {
    if rest.Ok? then Ok(cursor + rest.value) else rest
  }

  /** The extent a parent needs: multiplied for fixed-width items, walked otherwise. */
  ghost function ParentExtent<E>(s: ItemSchema<E>, input: seq<byte>, count: nat, offset: nat): (r: Result<nat, ArrayError<E>>)
    ensures r.Ok? ==> r.value <= |input|
  {
    match s.fixed
    case None =>
      CleanExtent(s, input, count, offset, 0, 0);
      Extent(Traversal(s, input, count, offset, 0, 0))
    case Some(width) =>
      if width == 0 && count != 0 then Err(NonProgress(0, offset))
      else if Times(width, count) > USIZE_MAX then Err(InvalidExtent(count, USIZE_MAX, |input|))
      else if Times(width, count) > |input| then
        Err(ShortArray(SaturatingAdd(offset, |input|), Times(width, count) - |input|))
      else Ok(Times(width, count))
  }

  /** What a parent learns of an array that other bytes follow: how far its items reach or,
      for a fixed width, how many bytes are missing. */
  ghost predicate Delimits<E>(s: ItemSchema<E>, input: seq<byte>, count: nat, offset: nat, r: Result<nat, ArrayError<E>>) {
    match s.fixed
    case None =>
      if r.Ok? then TilesTo(s, input, offset, count, r.value) else StopsWith(s, input, offset, 0, count, r.error)
    case Some(width) =>
      && (r.Ok? <==> width * count <= |input| && width * count <= USIZE_MAX && (count > 0 ==> width > 0))
      && (r.Ok? ==> r.value == width * count)
      && (r.Err? ==> MissingWidth(width, count, |input|, offset, r.error))
  }

  /** Items of no bytes, a product that overflows, or exactly the bytes that are missing. */
  ghost predicate MissingWidth<E>(width: nat, count: nat, len: nat, offset: nat, error: ArrayError<E>) {
    if width == 0 then error == NonProgress(0, offset)
    else if width * count > USIZE_MAX then error == InvalidExtent(count, USIZE_MAX, len)
    else error.ShortArray? && len + error.additional == width * count && error.offset == Min(offset + len, USIZE_MAX)
  }

  lemma ParentDelimits<E>(s: ItemSchema<E>, input: seq<byte>, count: nat, offset: nat)
    ensures Delimits(s, input, count, offset, ParentExtent(s, input, count, offset))
  {
    hide Traversal, TilesTo, StopsWith;
    if s.fixed.None? {
      var extent := Extent(Traversal(s, input, count, offset, 0, 0));
      TraversalIs(s, input, count, offset, 0, 0, if extent.Ok? then extent.value else 0);
    }
  }

  /** Nothing else is delimited so. */
  lemma DelimitsOne<E>(s: ItemSchema<E>, input: seq<byte>, count: nat, offset: nat, n: nat)
    requires Delimits(s, input, count, offset, Ok(n))
    ensures ParentExtent(s, input, count, offset) == Ok(n)
  {
    hide Traversal, TilesTo;
    if s.fixed.None? {
      TraversalIs(s, input, count, offset, 0, 0, n);
    }
  }

  method FrameArrayExtent<E>(s: ItemSchema<E>, input: seq<byte>, count: nat, offset: nat)
    returns (r: Result<nat, ArrayError<E>>)
    requires |input| <= USIZE_MAX
    ensures r == ParentExtent(s, input, count, offset)
    ensures Delimits(s, input, count, offset, r)
  {
    hide Delimits;
    ParentDelimits(s, input, count, offset);
    if s.fixed.Some? {
      var width := s.fixed.value;
      if width == 0 && count != 0 {
        return Err(NonProgress(0, offset));
      }
      var consumed := Times(width, count);
      if consumed > USIZE_MAX {
        return Err(InvalidExtent(count, USIZE_MAX, |input|));
      }
      if consumed > |input| {
        return Err(ShortArray(SaturatingAdd(offset, |input|), consumed - |input|));
      }
      return Ok(consumed);
    }
    WalkIsTraversal(s, input, count, offset, 0, 0);
    r := FrameArrayItems(s, input, count, offset);
  }

  /** A counted array over its available range. Generated parents mark an array validated
      when they framed all variable items, or multiplied out the fixed width. */
  datatype ArrayView<!E> = ArrayView(schema: ItemSchema<E>, input: seq<byte>, count: nat, offset: nat, validated: bool)
  {
    ghost function Items(): Steps<E> {
      Traversal(schema, input, count, offset, 0, 0)
    }

    ghost predicate Valid() {
      && |input| <= USIZE_MAX
      && (schema.fixed.Some? ==> FixedWidth(schema, schema.fixed.value))
      && (validated ==>
            if schema.fixed.None? then Clean(Items())
            else |input| == Times(count, schema.fixed.value) && (schema.fixed.value > 0 || count == 0))
    }
  }

  /** The items of a view succeed alike cut to their width and before other items. */
  ghost predicate Blind<E>(s: ItemSchema<E>) {
    s.fixed.Some? ==> SuffixBlind(s, s.fixed.value)
  }

  /** The exact bytes are available exactly when iteration gives `count` good items and
      then ends; for fixed-width items that is what `WalkFixedExactly` says of them. */
  method ExactBytes<E>(view: ArrayView<E>) returns (r: Result<seq<byte>, ArrayError<E>>)
    requires view.Valid()
    ensures Blind(view.schema) ==> (r.Ok? <==> Clean(view.Items()))
    ensures view.schema.fixed.Some? ==>
              (r.Ok? <==> && |view.input| == Times(view.count, view.schema.fixed.value)
                          && Walk(view.schema, view.input, view.count, view.offset, 0, 0).Ok?)
    ensures r.Ok? ==> r.value == view.input
  {
    hide Traversal, Walk, FixedWidth, SuffixBlind;
    ghost var width := view.schema.fixed.GetOr(0);
    CleanExtent(view.schema, view.input, view.count, view.offset, 0, 0);
    FixedAgrees(view);
    if !view.validated {
      var consumed :- FrameArrayExtent(view.schema, view.input, view.count, view.offset);
      if consumed != |view.input| {
        return Err(Trailing(SaturatingAdd(view.offset, consumed), |view.input| - consumed));
      }
      if view.schema.fixed.None? {
        return Ok(view.input);
      }
    } else if view.schema.fixed.None? {
      return Ok(view.input);
    }
    var consumed :- FrameArrayItems(view.schema, view.input, view.count, view.offset);
    assert consumed == |view.input|;
    r := Ok(view.input);
  }

  /** The multiplied extent followed by a walk, against iteration. */
  lemma FixedAgrees<E>(view: ArrayView<E>)
    requires view.Valid()
    ensures view.schema.fixed.Some? ==>
              var width := view.schema.fixed.value;
              var walked := Walk(view.schema, view.input, view.count, view.offset, 0, 0);
              && (Clean(view.Items()) ==> |view.input| == Times(width, view.count) && (width > 0 || view.count == 0))
              && (walked.Ok? ==> width > 0 || view.count == 0)
              && (|view.input| == Times(width, view.count) && (width > 0 || view.count == 0) ==>
                    && (walked.Ok? ==> walked.value == |view.input|)
                    && (Blind(view.schema) ==> (walked.Ok? <==> Clean(view.Items()))))
  {
    if view.schema.fixed.Some? {
      var width := view.schema.fixed.value;
      Commute(width, view.count);
      if Clean(view.Items()) {
        CleanFixed(view.schema, width, view.input, view.count, view.offset, 0, 0);
      }
      if |view.input| == Times(width, view.count) && width > 0 {
        WalkWidth(view.schema, width, view.input, view.count, view.offset, 0, 0);
        if Blind(view.schema) {
          WalkFixed(view.schema, width, view.input, view.count, view.offset);
        }
      }
    }
  }

  /** A walk that succeeds consumes the fixed width of every item. */
  lemma {:induction false} WalkWidth<E>(s: ItemSchema<E>, width: nat, input: seq<byte>, count: nat, offset: nat, index: nat, cursor: nat)
    requires index <= count && FixedWidth(s, width) && width > 0 && |input| == Times(count - index, width)
    ensures Walk(s, input, count, offset, index, cursor).Ok? ==> Walk(s, input, count, offset, index, cursor).value == |input|
    decreases count - index
  {
    if index == count {
      TimesZero(width);
    } else {
      TimesStep(count - index - 1, width);
      WalkWidth(s, width, input[width..], count, offset, index + 1, cursor + width);
    }
  }

  // ----- why the condition on fixed-width items is needed -----

  function OneByteAtTheEnd(input: seq<byte>, at: nat): Result<nat, nat> {
    if |input| == 1 then Ok(1) else Err(0)
  }

  /** A fixed-width schema that overrides the leading extent a fixed width has by default,
      and then accepts an exact span only: the iterator cuts each item to its width and
      succeeds, the walk offers the whole suffix and fails. */
  lemma CutAndWholeDiffer()
    ensures var s: ItemSchema<nat> := ItemSchema(Some(1), false, OneByteAtTheEnd, OneByteAtTheEnd);
            && FixedWidth(s, 1) && !SuffixBlind(s, 1)
            && Clean(Traversal(s, [7, 7], 2, 0, 0, 0))
            && Walk(s, [7, 7], 2, 0, 0, 0).Err?
  {
    var s: ItemSchema<nat> := ItemSchema(Some(1), false, OneByteAtTheEnd, OneByteAtTheEnd);
    var two: seq<byte> := [7, 7];
    assert two[..1] == [7] && two[1..] == [7];
    assert two[1..][..1] == [7] && two[1..][1..] == [];
    assert Traversal(s, [], 2, 0, 2, 2) == Ended;
    assert Traversal(s, two[1..], 2, 0, 1, 1) == Yield(1, Ended);
    CleanShift(s, two[1..], 1, 0, 1, 1);
    assert CleanAfter(s, 1, two[..1], two[1..], 0, 1);
    assert two[..1] + two[1..] == two;
    assert !SameOutcome(s, two[..1], two[1..], 0);
  }
}
