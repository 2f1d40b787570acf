/** Go byte strings, alignment padding, and little-endian words. */
module Bytes {
  type Byte = b: int | 0 <= b < 0x100
  type Str = seq<Byte>

  /** The four alignments (and the four word widths) of the wire format. */
  type Width = n: nat | n == 1 || n == 2 || n == 4 || n == 8 witness 1

  const TWO_TO_THE_8: nat := 0x100
  const TWO_TO_THE_16: nat := 0x1_0000
  const TWO_TO_THE_32: nat := 0x1_0000_0000
  const TWO_TO_THE_64: nat := 0x1_0000_0000_0000_0000

  function Zeros(n: nat): (z: Str)
    ensures |z| == n
    ensures forall i :: 0 <= i < n ==> z[i] == 0
  {
    seq(n, _ => 0)
  }

  /** pos % n, with each divisor written out. */
  function Rem(pos: nat, n: Width): nat {
    if n == 1 then 0 else if n == 2 then pos % 2 else if n == 4 then pos % 4 else pos % 8
  }

  predicate Aligned(pos: nat, n: Width) { Rem(pos, n) == 0 }

  lemma {:induction false} AlignedIff(pos: nat, n: Width)
    ensures Aligned(pos, n) <==> pos % n == 0
  {
  }

  /** Number of zero bytes the align loops insert or skip at offset `pos`. */
  function Pad(pos: nat, n: Width): nat {
    if Aligned(pos, n) then 0 else n - Rem(pos, n)
  }

  lemma {:induction false} RemNext(pos: nat, n: Width)
    ensures Rem(pos + 1, n) == if Rem(pos, n) + 1 == n then 0 else Rem(pos, n) + 1
  {
  }

  /** One turn of an align loop. */
  lemma {:induction false} PadNext(pos: nat, n: Width)
    requires !Aligned(pos, n)
    ensures Pad(pos, n) == 1 + Pad(pos + 1, n)
  {
    RemNext(pos, n);
  }

  /** Padding reaches the first aligned offset at or after `pos`, and no later one. */
  lemma {:induction false} PadIsLeast(pos: nat, n: Width)
    ensures Pad(pos, n) < n && Aligned(pos + Pad(pos, n), n)
    ensures forall q: nat :: pos <= q < pos + Pad(pos, n) ==> !Aligned(q, n)
    decreases Pad(pos, n)
  {
    if !Aligned(pos, n) {
      PadNext(pos, n);
      PadIsLeast(pos + 1, n);
    }
  }

  lemma {:induction false} PadShift(pos: nat, shift: nat, n: Width)
    requires shift % 8 == 0
    ensures Pad(pos + shift, n) == Pad(pos, n)
  {
    var k := shift / 8;
    assert pos + shift == pos + 8 * k;
  }

  /** Number of values a word of `w` bytes can hold. */
  function Limit(w: nat): (l: nat)
    ensures l > 0
  {
    if w == 0 then 1 else 0x100 * Limit(w - 1)
  }

  lemma {:induction false} LimitValues()
    ensures Limit(1) == TWO_TO_THE_8
    ensures Limit(2) == TWO_TO_THE_16
    ensures Limit(4) == TWO_TO_THE_32
    ensures Limit(8) == TWO_TO_THE_64
  {
    assert Limit(3) == 0x100_0000;
    assert Limit(5) == 0x100_0000_0000;
    assert Limit(6) == 0x1_0000_0000_0000;
    assert Limit(7) == 0x100_0000_0000_0000;
  }

  /** The low `w` bytes of `v`, least significant first: Go's `uintN(v)`
      conversion followed by binary.LittleEndian. Higher bits are dropped. */
  function LE(w: nat, v: nat): (b: Str)
    ensures |b| == w
  {
    if w == 0 then [] else [v % 0x100] + LE(w - 1, v / 0x100)
  }

  function UnLE(b: Str): (v: nat)
    ensures v < Limit(|b|)
  {
    if b == [] then 0 else b[0] + 0x100 * UnLE(b[1..])
  }

  /** Of a number that does not fit, the low bytes come back. */
  lemma {:induction false} WordTruncates(w: nat, v: nat)
    ensures UnLE(LE(w, v)) == v % Limit(w)
  {
    if w > 0 {
      WordTruncates(w - 1, v / 0x100);
      assert LE(w, v)[1..] == LE(w - 1, v / 0x100);
      LowBytes(v, Limit(w - 1));
    }
  }

  lemma {:induction false} LowBytes(v: nat, l: nat)
    requires l > 0
    ensures v % (0x100 * l) == v % 0x100 + 0x100 * (v / 0x100 % l)
  {
    var q, r := v / 0x100 / l, v / 0x100 % l;
    Regroup(q, l);
    Remainder(v, 0x100 * l, q, v % 0x100 + 0x100 * r);
  }

  lemma {:induction false} Regroup(q: nat, l: nat)
    ensures 0x100 * (l * q) == (0x100 * l) * q
  {
  }

  lemma {:induction false} Remainder(v: nat, m: nat, q: nat, r: nat)
    requires 0 < m && r < m && v == m * q + r
    ensures v % m == r
  {
    var k := v / m - q;
    assert m * (v / m) == m * q + m * k;
    AtLeast(m, k);
    AtLeast(m, -k);
    assert m * -k == -(m * k);
  }

  lemma {:induction false} AtLeast(m: nat, k: int)
    ensures k >= 1 ==> m * k >= m
    ensures k == 0 ==> m * k == 0
  {
    if k >= 1 { assert m * k == m * (k - 1) + m; }
  }

  /** A word comes back exactly when it fits the width. */
  lemma {:induction false} WordRoundTrip(w: nat, v: nat)
    ensures UnLE(LE(w, v)) == v <==> v < Limit(w)
  {
    if w > 0 {
      WordRoundTrip(w - 1, v / 0x100);
      assert LE(w, v)[1..] == LE(w - 1, v / 0x100);
    }
  }

  /** Every byte string of the right length is the encoding of its word. */
  lemma {:induction false} WordUnique(b: Str)
    ensures LE(|b|, UnLE(b)) == b
  {
    if b != [] {
      WordUnique(b[1..]);
      assert UnLE(b) / 0x100 == UnLE(b[1..]) && UnLE(b) % 0x100 == b[0];
    }
  }

  datatype Window = Outside | Inside(bytes: Str)

  function View(buf: Str, pos: nat, n: nat): Window {
    if pos + n <= |buf| then Inside(buf[pos..pos + n]) else Outside
  }

  /** `part` occupies buf[pos..pos+|part|]. */
  predicate At(buf: Str, pos: nat, part: Str) {
    View(buf, pos, |part|) == Inside(part)
  }

  lemma {:induction false} AtSplit(buf: Str, pos: nat, a: Str, b: Str)
    ensures At(buf, pos, a + b) <==> At(buf, pos, a) && At(buf, pos + |a|, b)
  {
    if At(buf, pos, a + b) {
      assert a == (a + b)[..|a|] == buf[pos..pos + |a|];
      assert b == (a + b)[|a|..] == buf[pos + |a|..pos + |a| + |b|];
    }
    if At(buf, pos, a) && At(buf, pos + |a|, b) {
      assert buf[pos..pos + |a| + |b|] == buf[pos..pos + |a|] + buf[pos + |a|..pos + |a| + |b|];
    }
  }

  lemma {:induction false} AtBound(buf: Str, pos: nat, part: Str)
    requires At(buf, pos, part)
    ensures pos + |part| <= |buf|
  {
  }

  lemma {:induction false} AtSplit3(buf: Str, pos: nat, a: Str, b: Str, c: Str)
    requires At(buf, pos, a + b + c)
    ensures At(buf, pos, a) && At(buf, pos + |a|, b) && At(buf, pos + |a| + |b|, c)
  {
    AtSplit(buf, pos, a + b, c);
    AtSplit(buf, pos, a, b);
  }
}
