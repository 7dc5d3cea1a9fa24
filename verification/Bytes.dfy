// Bytes, words and the bit-level reading of a 32-line port.
//
// The sources mix three views of the same data: bytes in buffers, 16-bit
// words in registers, and single lines of a GPIO port.  Bytes and words are
// integers in range here; a port is the set of the numbers of its lines
// that are 1.
module Bytes {
  type byte = x: int | 0 <= x < 256

  type word = x: int | 0 <= x < 0x1_0000

  const U32: int := 0x1_0000_0000

  datatype Option<+T> = None | Some(value: T)

  function Lo(w: word): byte { w % 256 }

  function Hi(w: word): byte { w / 256 }

  function Word(lo: byte, hi: byte): (w: word)
    ensures Lo(w) == lo && Hi(w) == hi
  {
    lo + 256 * hi
  }

  function Min(a: int, b: int): int { if a < b then a else b }

  // `v << base`, as the set of the lines that are 1.
  function LinesOf(v: nat, base: nat): set<int> {
    if v == 0 then {} else (if v % 2 == 1 then {base} else {}) + LinesOf(v / 2, base + 1)
  }

  // `(lines >> base) & ((1 << width) - 1)`.
  function Field(lines: set<int>, base: nat, width: nat): nat
    decreases width
  {
    if width == 0 then 0 else (if base in lines then 1 else 0) + 2 * Field(lines, base + 1, width - 1)
  }

  // The mask `((1 << width) - 1) << base`.
  function Span(base: nat, width: nat): (lines: set<int>)
    ensures forall i :: i in lines <==> base <= i < base + width
    decreases width
  {
    if width == 0 then {} else {base} + Span(base + 1, width - 1)
  }

  function Pow2(n: nat): nat { if n == 0 then 1 else 2 * Pow2(n - 1) }

  lemma Pow2Word()
    ensures Pow2(8) == 0x100 && Pow2(16) == 0x1_0000
  {
    assert Pow2(12) == 0x1000;
  }

  // A field depends on its own lines only.
  lemma {:induction false} FieldFrame(s: set<int>, t: set<int>, base: nat, width: nat)
    requires forall i :: base <= i < base + width ==> (i in s <==> i in t)
    ensures Field(s, base, width) == Field(t, base, width)
    decreases width
  {
    if width > 0 {
      FieldFrame(s, t, base + 1, width - 1);
    }
  }

  // A value that fits its field raises no line outside it ...
  lemma {:induction false} LinesWithin(v: nat, base: nat, width: nat)
    requires v < Pow2(width)
    ensures LinesOf(v, base) <= Span(base, width)
  {
    if v != 0 {
      LinesWithin(v / 2, base + 1, width - 1);
    }
  }

  // ... and is read back from it unchanged.
  lemma {:induction false} FieldOfLines(v: nat, base: nat, width: nat)
    requires v < Pow2(width)
    ensures Field(LinesOf(v, base), base, width) == v
    decreases width
  {
    if width > 0 {
      FieldOfLines(v / 2, base + 1, width - 1);
      LinesWithin(v / 2, base + 1, width - 1);
      FieldFrame(LinesOf(v, base), LinesOf(v / 2, base + 1), base + 1, width - 1);
    }
  }

  // Clearing a field and raising the lines of a value that fits it is how the
  // driver stores a value into part of the port.
  lemma StoreField(out: set<int>, v: nat, base: nat, width: nat)
    requires v < Pow2(width)
    ensures var now := (out - Span(base, width)) + LinesOf(v, base);
            && Field(now, base, width) == v
            && now - Span(base, width) == out - Span(base, width)
  {
    LinesWithin(v, base, width);
    FieldOfLines(v, base, width);
    FieldFrame((out - Span(base, width)) + LinesOf(v, base), LinesOf(v, base), base, width);
  }

  // C's `a | b` and `a & b` on non-negative values.
  function BitOr(a: nat, b: nat): nat {
    if a == 0 && b == 0 then 0
    else (if a % 2 == 1 || b % 2 == 1 then 1 else 0) + 2 * BitOr(a / 2, b / 2)
  }

  function BitAnd(a: nat, b: nat): nat {
    if a == 0 || b == 0 then 0
    else (if a % 2 == 1 && b % 2 == 1 then 1 else 0) + 2 * BitAnd(a / 2, b / 2)
  }

  lemma {:induction false} BitOrLines(a: nat, b: nat, base: nat)
    ensures LinesOf(BitOr(a, b), base) == LinesOf(a, base) + LinesOf(b, base)
  {
    if a != 0 || b != 0 {
      BitOrLines(a / 2, b / 2, base + 1);
    }
  }

  lemma {:induction false} LinesFrom(v: nat, base: nat)
    ensures forall i :: i in LinesOf(v, base) ==> i >= base
    ensures LinesOf(v, base) == {} <==> v == 0
  {
    if v != 0 {
      LinesFrom(v / 2, base + 1);
    }
  }

  // `&` keeps exactly the lines of both operands.
  lemma {:induction false} BitAndLines(a: nat, b: nat, base: nat)
    ensures LinesOf(BitAnd(a, b), base) == LinesOf(a, base) * LinesOf(b, base)
  {
    if a != 0 && b != 0 {
      BitAndLines(a / 2, b / 2, base + 1);
      LinesFrom(a / 2, base + 1);
      LinesFrom(b / 2, base + 1);
    }
  }

  // Shifting a value shifts its lines.
  lemma {:induction false} LinesShift(v: nat, n: nat, base: nat)
    ensures LinesOf(Pow2(n) * v, base) == LinesOf(v, base + n)
  {
    if n > 0 {
      LinesShift(v, n - 1, base + 1);
      Pow2Next(n - 1, v);
      LinesDouble(Pow2(n - 1) * v, base);
    }
  }

  lemma LinesDouble(v: nat, base: nat)
    ensures LinesOf(2 * v, base) == LinesOf(v, base + 1)
  {
  }

  lemma Pow2Next(n: nat, v: nat)
    ensures Pow2(n + 1) * v == 2 * (Pow2(n) * v)
  {
  }

  // A mask of some lines finds a value that has one of them.
  lemma MaskFinds(v: nat, mask: nat)
    ensures BitAnd(v, mask) != 0 <==> LinesOf(v, 0) * LinesOf(mask, 0) != {}
  {
    BitAndLines(v, mask, 0);
    LinesFrom(BitAnd(v, mask), 0);
  }

  lemma {:induction false} BitOrFits(a: nat, b: nat, width: nat)
    requires a < Pow2(width) && b < Pow2(width)
    ensures BitOr(a, b) < Pow2(width)
  {
    if width > 0 {
      BitOrFits(a / 2, b / 2, width - 1);
    }
  }

  lemma Associate<T>(a: seq<T>, b: seq<T>, c: seq<T>)
    ensures a + b + c == a + (b + c)
  {
  }

  // `old` with `bytes` written over it from `at` on.
  function Patched(was: seq<byte>, at: nat, bytes: seq<byte>): (now: seq<byte>)
    requires at + |bytes| <= |was|
    ensures |now| == |was|
    ensures now[..at + |bytes|] == was[..at] + bytes
  {
    was[..at] + bytes + was[at + |bytes|..]
  }

  // memcpy into part of a buffer.
  method Memcpy(dst: array<byte>, at: nat, src: seq<byte>)
    requires at + |src| <= dst.Length
    modifies dst
    ensures dst[..] == Patched(old(dst[..]), at, src)
  {
    forall i | 0 <= i < |src| {
      dst[at + i] := src[i];
    }
  }
}
