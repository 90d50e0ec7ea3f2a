/** The retained geometry object and its per-encoding lookups. */
module RecursiveGeometry {
  import opened Arith
  import opened Base
  import opened Errors
  import opened Widths
  import opened GeometryStorage
  import opened GeometryLookup

  /** A summary of the item widths of one array: what kind it is, three words and 356 bytes. */
  class Geometry {
    const storage: array<byte>
    var meta: seq<nat>
    var kind: Kind

    ghost predicate Valid()
      reads this
    {
      storage.Length == STORAGE_BYTES && |meta| == 3 && forall k :: 0 <= k < 3 ==> meta[k] <= U32_MAX
    }

    /** The summary describes widths `w`, which tile `available` bytes. */
    ghost predicate DescribesTiling(w: seq<nat>, available: nat)
      requires Valid()
      reads this, storage
    {
      Describes(kind, meta, storage[..], w) && Tiles(w, available)
    }

    /** Nothing retained yet: every lookup would replay. */
    constructor ()
      ensures Valid() && fresh(storage) && kind == Replay
      ensures meta == [0, 0, 0] && storage[..] == Zeros(STORAGE_BYTES)
    {
      storage := new byte[STORAGE_BYTES](_ => 0);
      meta := [0, 0, 0];
      kind := Replay;
      new;
      assert storage[..] == Zeros(STORAGE_BYTES);
    }

    method Reset(selected: Kind)
      requires Valid()
      modifies this, storage
      ensures Valid() && kind == selected
      ensures meta == [0, 0, 0] && storage[..] == Zeros(STORAGE_BYTES)
    {
      forall i | 0 <= i < STORAGE_BYTES {
        storage[i] := 0;
      }
      meta := [0, 0, 0];
      kind := selected;
      assert storage[..] == Zeros(STORAGE_BYTES);
    }
  }
}
