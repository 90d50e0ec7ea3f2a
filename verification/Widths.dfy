/** Prefix sums of item widths: where each item of a tiled span lies. */
module Widths {
  import opened Base

  /** Start of item `i` when items of widths `w` lie side by side from zero. */
  function Start(w: seq<nat>, i: nat): nat
    requires i <= |w|
  {
    if i == 0 then 0 else Start(w, i - 1) + w[i - 1]
  }

  function ItemRange(w: seq<nat>, i: nat): Range
    requires i < |w|
  {
    Range(Start(w, i), Start(w, i + 1))
  }

  ghost predicate Positive(w: seq<nat>) {
    forall i :: 0 <= i < |w| ==> w[i] > 0
  }

  lemma {:induction false} StartMonotone(w: seq<nat>, i: nat, j: nat)
    requires i <= j <= |w|
    ensures Start(w, i) <= Start(w, j)
    decreases j
  {
    if i < j {
      StartMonotone(w, i, j - 1);
    }
  }

  lemma StartNext(w: seq<nat>, i: nat)
    requires i < |w|
    ensures Start(w, i + 1) == Start(w, i) + w[i]
  {
  }

  /** Items of a tiling that are all positive are at least as many bytes as items. */
  lemma {:induction false} StartAtLeastCount(w: seq<nat>, i: nat)
    requires i <= |w| && Positive(w)
    ensures Start(w, i) >= i
  {
    if i > 0 {
      StartAtLeastCount(w, i - 1);
    }
  }

  /** A block of equal widths advances linearly. */
  lemma {:induction false} StartUniform(w: seq<nat>, i: nat, j: nat, width: nat)
    requires i <= j <= |w|
    requires forall k :: i <= k < j ==> w[k] == width
    ensures Start(w, j) == Start(w, i) + (j - i) * width
    decreases j
  {
    if i < j {
      StartUniform(w, i, j - 1, width);
      assert (j - i) * width == (j - 1 - i) * width + width;
    }
  }

  lemma {:induction false} StartPrefix(v: seq<nat>, w: seq<nat>, i: nat)
    requires i <= |v| && v <= w
    ensures Start(v, i) == Start(w, i)
  {
    if i > 0 {
      StartPrefix(v, w, i - 1);
    }
  }

  lemma {:induction false} StartAppend(v: seq<nat>, w: seq<nat>, i: nat)
    requires i <= |w|
    ensures Start(v + w, |v| + i) == Start(v, |v|) + Start(w, i)
  {
    if i == 0 {
      StartPrefix(v, v + w, |v|);
    } else {
      StartAppend(v, w, i - 1);
    }
  }
}
