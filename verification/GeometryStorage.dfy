/** The bounded 356-byte summary kept for one recursive array: its regions, its
    little-endian slots, its 6-bit packed codes and its mixed-radix components. */
module GeometryStorage {
  import opened Base
  import opened Bits

  const STORAGE_BYTES := 356
  const PALETTE_CAPACITY := 64
  const PERIOD_CAPACITY := 64
  const INTERVAL_CAPACITY := 24
  const RANKED_CAPACITY := 256
  const RANKED_BLOCK := 32
  const PACKED_RUN_CAPACITY := 256
  const PACKED_RUN_BLOCK := 64

  const SHAPE_HASHES := 0
  const SHAPE_WIDTHS := SHAPE_HASHES + PALETTE_CAPACITY * 2
  const SHAPE_CODES := SHAPE_WIDTHS + PALETTE_CAPACITY * 2

  const RANKED_PALETTE := 0
  const RANKED_CODES := RANKED_PALETTE + PALETTE_CAPACITY * 2
  const RANKED_PREFIXES := RANKED_CODES + RANKED_CAPACITY * 6 / 8

  const PACKED_PALETTE := 0
  const PACKED_CODES := PACKED_PALETTE + PALETTE_CAPACITY * 2
  const PACKED_PREFIXES := PACKED_CODES + PACKED_RUN_CAPACITY * 6 / 8

  const FACTOR_AXES := 4
  const FACTOR_COMPONENTS := 120
  const FACTOR_INITIALIZED := FACTOR_COMPONENTS * 2

  type Storage = s: seq<byte> | |s| == STORAGE_BYTES
    witness Zeros(STORAGE_BYTES)

  // ----- little-endian slots -----

  function GetU16(s: Storage, offset: nat): nat
    requires offset + 2 <= STORAGE_BYTES
  {
    s[offset] as nat + 256 * s[offset + 1] as nat
  }

  function GetI16(s: Storage, offset: nat): int
    requires offset + 2 <= STORAGE_BYTES
  {
    var raw := GetU16(s, offset);
    if raw < 0x8000 then raw else raw - 0x1_0000
  }

  function GetU32(s: Storage, offset: nat): nat
    requires offset + 4 <= STORAGE_BYTES
  {
    s[offset] as nat + 256 * (s[offset + 1] as nat + 256 * (s[offset + 2] as nat + 256 * s[offset + 3] as nat))
  }

  method PutU16(storage: array<byte>, offset: nat, value: nat)
    requires storage.Length == STORAGE_BYTES && offset + 2 <= STORAGE_BYTES && value < 0x1_0000
    modifies storage
    ensures GetU16(storage[..], offset) == value
    ensures Untouched(old(storage[..]), storage[..], offset, offset + 2)
  {
    storage[offset] := value % 256;
    storage[offset + 1] := value / 256;
  }

  method PutI16(storage: array<byte>, offset: nat, value: int)
    requires storage.Length == STORAGE_BYTES && offset + 2 <= STORAGE_BYTES
    requires -0x8000 <= value < 0x8000
    modifies storage
    ensures GetI16(storage[..], offset) == value
    ensures Untouched(old(storage[..]), storage[..], offset, offset + 2)
  {
    PutU16(storage, offset, if value < 0 then value + 0x1_0000 else value);
  }

  method PutU32(storage: array<byte>, offset: nat, value: nat)
    requires storage.Length == STORAGE_BYTES && offset + 4 <= STORAGE_BYTES && value <= U32_MAX
    modifies storage
    ensures GetU32(storage[..], offset) == value
    ensures Untouched(old(storage[..]), storage[..], offset, offset + 4)
  {
    storage[offset] := value % 256;
    storage[offset + 1] := value / 256 % 256;
    storage[offset + 2] := value / 0x1_0000 % 256;
    storage[offset + 3] := value / 0x100_0000;
  }

  /** Only bytes of `[start, end)` may differ. */
  predicate Untouched(before: Storage, after: Storage, start: nat, end: nat) {
    forall i :: 0 <= i < STORAGE_BYTES && !(start <= i < end) ==> after[i] == before[i]
  }

  // ----- 6-bit packed codes -----

  function GetCode(s: Storage, base: nat, index: nat): (code: nat)
    requires base + index * 6 / 8 < STORAGE_BYTES
  {
    var bit := index * 6;
    var at := base + bit / 8;
    var high := if at + 1 < STORAGE_BYTES then s[at + 1] else 0;
    And(Shr(Or(s[at], Shl(high, 8)), bit % 8), 0x3f)
  }

  /** The 16-bit window that `SetCode` writes back. */
  function CodeWindow(low: byte, high: byte, shift: nat, code: nat): nat {
    var value := Or(low, Shl(high, 8));
    var mask := Low(Shl(0x3f, shift), 16);
    Or(And(value, Not(16, mask)), Low(Shl(Low(code, 16), shift), 16))
  }

  /** Where the second byte of a code may lie: codes never start in the last byte. */
  predicate CodeFits(base: nat, index: nat) {
    base + index * 6 / 8 + 1 < STORAGE_BYTES
  }

  method SetCode(storage: array<byte>, base: nat, index: nat, code: nat)
    requires storage.Length == STORAGE_BYTES
    requires CodeFits(base, index) && code < 64
    modifies storage
    ensures GetCode(storage[..], base, index) == code
    ensures forall other :: other != index && CodeFits(base, other) ==>
              GetCode(storage[..], base, other) == GetCode(old(storage[..]), base, other)
    ensures Untouched(old(storage[..]), storage[..], base + index * 6 / 8, base + (index * 6 + 5) / 8 + 1)
  {
    ghost var before: Storage := storage[..];
    var bit := index * 6;
    var at := base + bit / 8;
    var shift := bit % 8;
    var value := CodeWindow(storage[at], storage[at + 1], shift, code);
    storage[at] := ByteOf(value);
    if shift > 2 {
      storage[at + 1] := ByteOf(Shr(value, 8));
    }
    ghost var after: Storage := storage[..];
    assert after == WithCode(before, base, index, code);
    SetCodeIsSlice(before, base, index, code);
    ReadBack(before, after, base, index, code);
    forall other | other != index && CodeFits(base, other)
      ensures GetCode(after, base, other) == GetCode(before, base, other)
    {
      OthersKept(before, after, base, index, code, other);
    }
  }

  function ByteOf(value: nat): (b: byte) {
    LowIsMod(value, 8);
    assert Pow2(8) == 256;
    Low(value, 8)
  }

  /** Bit `j` of the packed region that starts at byte `base`. */
  predicate RegionBit(s: Storage, base: nat, j: nat)
    requires base + j / 8 < STORAGE_BYTES
  {
    Bit(s[base + j / 8], j % 8)
  }

  /** `after` is `before` with bits `6 * index .. 6 * index + 6` of the region
      replaced by the bits of `code`. */
  ghost predicate CodeReplaced(before: Storage, after: Storage, base: nat, index: nat, code: nat) {
    && Untouched(before, after, base, STORAGE_BYTES)
    && forall j: nat | base + j / 8 < STORAGE_BYTES ::
         RegionBit(after, base, j) ==
           if 6 * index <= j < 6 * index + 6 then Bit(code, j - 6 * index)
           else RegionBit(before, base, j)
  }

  /** A code is the number written by its six region bits. */
  lemma CodeBits(s: Storage, base: nat, index: nat, k: nat)
    requires CodeFits(base, index)
    ensures Bit(GetCode(s, base, index), k) <==> k < 6 && RegionBit(s, base, 6 * index + k)
  {
    hide And, Or, Shl, Shr, Bit;
    var bit := index * 6;
    var at, shift := base + bit / 8, bit % 8;
    var word := Or(s[at], Shl(s[at + 1], 8));
    AndBit(Shr(word, shift), 0x3f, k);
    assert Pow2(6) == 64;
    OnesBit(6, k);
    if k < 6 {
      ShrBit(word, shift, k);
      WordBit(s[at], s[at + 1], shift + k);
      assert (6 * index + k) / 8 == bit / 8 + (shift + k) / 8;
    }
  }

  /** A 16-bit window shows its two bytes side by side. */
  lemma WordBit(low: byte, high: byte, m: nat)
    requires m < 16
    ensures Bit(Or(low, Shl(high, 8)), m) <==> if m < 8 then Bit(low, m) else Bit(high, m - 8)
  {
    OrBit(low, Shl(high, 8), m);
    ShlBit(high, 8, m);
    assert Pow2(8) == 256;
    if m >= 8 {
      FitsBits(low, 8, m);
    }
  }

  /** `CodeWindow` replaces exactly the six bits from `shift` on. */
  lemma WindowBit(low: byte, high: byte, shift: nat, code: nat, m: nat)
    requires shift <= 6 && code < 64 && m < 16
    ensures Bit(CodeWindow(low, high, shift, code), m) <==>
              if shift <= m < shift + 6 then Bit(code, m - shift)
              else if m < 8 then Bit(low, m) else Bit(high, m - 8)
  {
    var value := Or(low, Shl(high, 8));
    var mask := Low(Shl(0x3f, shift), 16);
    var placed := Low(Shl(Low(code, 16), shift), 16);
    OrBit(And(value, Not(16, mask)), placed, m);
    AndBit(value, Not(16, mask), m);
    NotBit(16, mask, m);
    LowBit(Shl(0x3f, shift), 16, m);
    ShlBit(0x3f, shift, m);
    LowBit(Shl(Low(code, 16), shift), 16, m);
    ShlBit(Low(code, 16), shift, m);
    WordBit(low, high, m);
    if m >= shift {
      assert Pow2(6) == 64;
      OnesBit(6, m - shift);
      LowBit(code, 16, m - shift);
      if m - shift >= 6 {
        FitsBits(code, 6, m - shift);
      }
    }
  }

  lemma ByteBit(value: nat, m: nat)
    requires m < 8
    ensures Bit(ByteOf(value), m) <==> Bit(value, m)
    ensures Bit(ByteOf(Shr(value, 8)), m) <==> Bit(value, m + 8)
  {
    LowBit(value, 8, m);
    LowBit(Shr(value, 8), 8, m);
    ShrBit(value, 8, m);
  }

  /** The storage after `SetCode`. */
  function WithCode(s: Storage, base: nat, index: nat, code: nat): Storage
    requires CodeFits(base, index)
  {
    var at := base + index * 6 / 8;
    var shift := index * 6 % 8;
    var value := CodeWindow(s[at], s[at + 1], shift, code);
    var first := s[at := ByteOf(value)];
    if shift > 2 then first[at + 1 := ByteOf(Shr(value, 8))] else first
  }

  lemma WithCodeBit(s: Storage, base: nat, index: nat, code: nat, j: nat)
    requires CodeFits(base, index) && code < 64 && base + j / 8 < STORAGE_BYTES
    ensures RegionBit(WithCode(s, base, index, code), base, j) ==
              if 6 * index <= j < 6 * index + 6 then Bit(code, j - 6 * index) else RegionBit(s, base, j)
  {
    hide CodeWindow, Bit;
    var first, shift := index * 6 / 8, index * 6 % 8;
    var value := CodeWindow(s[base + first], s[base + first + 1], shift, code);
    if j / 8 == first {
      WindowBit(s[base + first], s[base + first + 1], shift, code, j % 8);
      ByteBit(value, j % 8);
    } else if j / 8 == first + 1 {
      WindowBit(s[base + first], s[base + first + 1], shift, code, j % 8 + 8);
      ByteBit(value, j % 8);
    }
  }

  lemma SetCodeIsSlice(s: Storage, base: nat, index: nat, code: nat)
    requires CodeFits(base, index) && code < 64
    ensures CodeReplaced(s, WithCode(s, base, index, code), base, index, code)
  {
    forall j: nat | base + j / 8 < STORAGE_BYTES
      ensures RegionBit(WithCode(s, base, index, code), base, j) ==
                if 6 * index <= j < 6 * index + 6 then Bit(code, j - 6 * index)
                else RegionBit(s, base, j)
    {
      WithCodeBit(s, base, index, code, j);
    }
  }

  lemma ReadBack(before: Storage, after: Storage, base: nat, index: nat, code: nat)
    requires CodeFits(base, index) && code < 64
    requires CodeReplaced(before, after, base, index, code)
    ensures GetCode(after, base, index) == code
  {
    forall k: nat ensures Bit(GetCode(after, base, index), k) == Bit(code, k) {
      CodeBits(after, base, index, k);
      assert Pow2(6) == 64;
      if k >= 6 {
        FitsBits(code, 6, k);
      } else {
        assert RegionBit(after, base, 6 * index + k) == Bit(code, k);
      }
    }
    Extensional(GetCode(after, base, index), code);
  }

  lemma OthersKept(before: Storage, after: Storage, base: nat, index: nat, code: nat, other: nat)
    requires CodeFits(base, other) && other != index
    requires CodeReplaced(before, after, base, index, code)
    ensures GetCode(after, base, other) == GetCode(before, base, other)
  {
    forall k: nat ensures Bit(GetCode(after, base, other), k) == Bit(GetCode(before, base, other), k) {
      CodeBits(after, base, other, k);
      CodeBits(before, base, other, k);
      if k < 6 {
        assert RegionBit(after, base, 6 * other + k) == RegionBit(before, base, 6 * other + k);
      }
    }
    Extensional(GetCode(after, base, other), GetCode(before, base, other));
  }

  /** Every code is a class number below the palette capacity. */
  lemma CodeBound(s: Storage, base: nat, index: nat)
    requires base + index * 6 / 8 < STORAGE_BYTES
    ensures GetCode(s, base, index) < PALETTE_CAPACITY
  {
    var bit := index * 6;
    var at := base + bit / 8;
    var high := if at + 1 < STORAGE_BYTES then s[at + 1] else 0;
    assert Pow2(6) == 64;
    MaskIsLow(Shr(Or(s[at], Shl(high, 8)), bit % 8), 6);
    LowIsMod(Shr(Or(s[at], Shl(high, 8)), bit % 8), 6);
  }

  /** No code of the ranked or packed region reaches the palette before it or the
      block prefixes after it. */
  lemma CodesStayInRegion(index: nat)
    requires index < RANKED_CAPACITY
    ensures CodeFits(RANKED_CODES, index) && CodeFits(PACKED_CODES, index)
    ensures RANKED_PALETTE + 2 * PALETTE_CAPACITY <= RANKED_CODES + index * 6 / 8
    ensures RANKED_CODES + (index * 6 + 5) / 8 + 1 <= RANKED_PREFIXES
    ensures PACKED_PALETTE + 2 * PALETTE_CAPACITY <= PACKED_CODES + index * 6 / 8
    ensures PACKED_CODES + (index * 6 + 5) / 8 + 1 <= PACKED_PREFIXES
  {
  }

  // ----- four-axis components -----

  function FactorLength(axis: nat): (n: nat)
    requires axis < FACTOR_AXES
    ensures n > 0
  {
    [16, 64, 8, 32][axis]
  }

  function FactorBlock(axis: nat): (n: nat)
    requires axis < FACTOR_AXES
    ensures n > 0
  {
    [1, 16, 1024, 8192][axis]
  }

  function FactorOffset(axis: nat): nat
    requires axis < FACTOR_AXES
  {
    [0, 16, 80, 88][axis]
  }

  function FactorDigit(index: nat, axis: nat): (d: nat)
    requires axis < FACTOR_AXES
    ensures d < FactorLength(axis)
  {
    (index / FactorBlock(axis)) % FactorLength(axis)
  }

  function FactorComponent(s: Storage, axis: nat, digit: nat): int
    requires axis < FACTOR_AXES && digit < FactorLength(axis)
  {
    GetI16(s, (FactorOffset(axis) + digit) * 2)
  }
}
